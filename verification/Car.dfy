/** The archive container: a header, then length-prefixed blocks named by content identifiers. */
module Car {
  import opened Bytes
  import opened Outcome
  import opened Cbor
  import opened CborRoundTrip
  import opened Varint
  import CborCanonical
  import CborCodec

  datatype Archive = Archive(header: Value, blocks: map<bytes, bytes>)

  /** One block of the archive and where it ends. */
  datatype Section = Section(cid: bytes, body: bytes, end: nat)

  function Message(e: VarintError): string
  {
    if e == UnexpectedEnd then "unexpected end of CAR data" else "varint overflow"
  }

  function Number(p: bytes, limit: nat, i: nat): (r: Result<Decoded<nat>, string>)
    requires limit <= |p|
    ensures r.Ok? ==> i < r.value.next <= limit && r.value.value < UINT64_LIMIT
  {
    match ReadVarint(p, limit, i)
    case Ok(d) => Ok(d)
    case Err(e) => Err(Message(e))
  }

  // ---------------------------------------------------------------- parsing

  /** The numbers of a content identifier; the last one is the length of its digest. */
  function CidNumbers(p: bytes, start: nat, end: nat): (r: Result<Decoded<nat>, string>)
    requires end <= |p|
    ensures r.Ok? ==> start + 3 < r.value.next <= end && r.value.value < UINT64_LIMIT
  {
    var codec :- Number(p, end, start + 1);
    var hash :- Number(p, end, codec.next);
    Number(p, end, hash.next)
  }

  /** One block. A block length whose sum passes 64 bits ends before it starts; a digest length that does so ends before
      itself, and what precedes that place is taken for the identifier unless nothing does. */
  function ParseSection(p: bytes, i: nat): (r: Result<Section, string>)
    ensures r.Ok? ==> i < r.value.end <= |p|
  {
    var len :- Number(p, |p|, i);
    var start, end := len.next, len.next + len.value;
    if end > |p| then Err(if end < UINT64_LIMIT then "block length exceeds CAR data" else "expected CIDv1")
    else if start >= end || p[start] != 1 then Err("expected CIDv1")
    else
      var size :- CidNumbers(p, start, end);
      var bodyAt := size.next + size.value;
      if bodyAt <= end then Ok(Section(p[start..bodyAt], p[bodyAt..end], end))
      else if bodyAt < UINT64_LIMIT then Err("truncated CID")
      else
        var back := bodyAt - UINT64_LIMIT;
        if back < start then Err(LENGTH_ERROR) else Ok(Section(p[start..back], p[back..end], end))
  }

  function ParseBlocks(p: bytes, i: nat, blocks: map<bytes, bytes>): Result<map<bytes, bytes>, string>
    decreases |p| - i
  {
    if i >= |p| then Ok(blocks)
    else
      var s :- ParseSection(p, i);
      ParseBlocks(p, s.end, blocks[s.cid := s.body])
  }

  /** A header length whose sum passes 64 bits sends the decoder past the end of the input, where the model stops. */
  const HEADER_BEYOND := "header beyond the input"

  function ParseCar(p: bytes): Result<Archive, string>
  {
    var len :- Number(p, |p|, 0);
    var end := len.next + len.value;
    if len.value == 0 || end > |p| then Err(if end < UINT64_LIMIT then "truncated CAR header" else HEADER_BEYOND)
    else
      var header :- Decode(p[len.next..end]);
      var blocks :- ParseBlocks(p, end, map[]);
      Ok(Archive(header, blocks))
  }

  method ParseCarLoop(p: Buffer) returns (r: Result<Archive, string>)
    ensures r == ParseCar(p)
  {
    hide ReadVarint, Decode, ParseSection;
    var len := Uvarint(p, |p|, 0);
    if len.Err? {
      return Err(Message(len.error));
    }
    var i := len.value.next;
    var hlen := len.value.value;
    Sum64Is(i, hlen);
    if hlen == 0 || Sum64(i, hlen) > |p| {
      return Err("truncated CAR header");
    }
    if hlen > |p| {
      return Err(HEADER_BEYOND);
    }
    var header := CborCodec.DecodeValue(p[i..i + hlen]);
    if header.Err? {
      return Err(header.error);
    }
    i := i + hlen;
    var blocks: map<bytes, bytes> := map[];
    ghost var all := ParseBlocks(p, i, map[]);
    while i < |p|
      invariant all == ParseBlocks(p, i, blocks)
      decreases |p| - i
    {
      var s := ReadSection(p, i);
      if s.Err? {
        return Err(s.error);
      }
      blocks := blocks[s.value.cid := s.value.body];
      i := s.value.end;
    }
    return Ok(Archive(header.value, blocks));
  }

  /** The body of the block loop. */
  method ReadSection(p: Buffer, i: nat) returns (r: Result<Section, string>)
    ensures r == ParseSection(p, i)
  {
    hide ReadVarint;
    var blen := Uvarint(p, |p|, i);
    if blen.Err? {
      return Err(Message(blen.error));
    }
    var start := blen.value.next;
    Sum64Is(start, blen.value.value);
    var end := Sum64(start, blen.value.value);
    if end > |p| {
      return Err("block length exceeds CAR data");
    }
    if start >= end || p[start] != 1 {
      return Err("expected CIDv1");
    }
    var codec := Uvarint(p, end, start + 1);
    if codec.Err? {
      return Err(Message(codec.error));
    }
    var hash := Uvarint(p, end, codec.value.next);
    if hash.Err? {
      return Err(Message(hash.error));
    }
    var size := Uvarint(p, end, hash.value.next);
    if size.Err? {
      return Err(Message(size.error));
    }
    Sum64Is(size.value.next, size.value.value);
    var j := Sum64(size.value.next, size.value.value);
    if j > end {
      return Err("truncated CID");
    }
    if j < start {
      return Err(LENGTH_ERROR);
    }
    return Ok(Section(p[start..j], p[j..end], end));
  }

  // ---------------------------------------------------------------- lengths that pass 64 bits

  /** One block with its lengths taken as the numbers they are. */
  function SectionAsMeant(p: bytes, i: nat): (r: Result<Section, string>)
  {
    var len :- Number(p, |p|, i);
    var start, end := len.next, len.next + len.value;
    if end > |p| then Err("block length exceeds CAR data")
    else if start >= end || p[start] != 1 then Err("expected CIDv1")
    else
      var size :- CidNumbers(p, start, end);
      var bodyAt := size.next + size.value;
      if bodyAt > end then Err("truncated CID") else Ok(Section(p[start..bodyAt], p[bodyAt..end], end))
  }

  predicate Passes64(d: Result<Decoded<nat>, string>) { d.Ok? && d.value.next + d.value.value >= UINT64_LIMIT }

  /** The block length passes 64 bits, or it is in order and the digest length of a version 1 identifier does. */
  predicate LengthWraps(p: bytes, i: nat)
  {
    var len := Number(p, |p|, i);
    || Passes64(len)
    || (len.Ok?
        && var start, end := len.value.next, len.value.next + len.value.value;
           end <= |p| && start < end && p[start] == 1 && Passes64(CidNumbers(p, start, end)))
  }

  /** The program takes a block as it is meant just when neither length passes 64 bits together with its place. */
  lemma SectionAgreesExactly(p: bytes, i: nat)
    requires |p| < UINT64_LIMIT
    ensures ParseSection(p, i) == SectionAsMeant(p, i) <==> !LengthWraps(p, i)
  {
    hide Number, CidNumbers;
  }

  /** A block that is nothing but an identifier with a digest of 2^64 - 1 octets. */
  function Oversized(): bytes
  {
    var d := Leb128(UINT64_LIMIT - 1);
    AtMostTen(UINT64_LIMIT - 1);
    [3 + |d|, 1, 0, 0] + d
  }

  /** An archive with a null header and that block. */
  function WithOversized(): bytes { [1, 0xf6] + Oversized() }

  /** It is accepted, with an identifier one octet shorter than what was read of it. */
  lemma WrappedDigestIsAccepted()
    ensures var p := WithOversized();
            && SectionAsMeant(p, 2) == Err("truncated CID")
            && ParseCar(p) == Ok(Archive(Null, map[p[3..|p| - 1] := p[|p| - 1..]]))
  {
    hide Leb128, ReadVarint, At, ParseSection, SectionAsMeant, Decode;
    var p, d := WithOversized(), Leb128(UINT64_LIMIT - 1);
    AtMostTen(UINT64_LIMIT - 1);
    assert p == [1, 0xf6, 3 + |d|, 1, 0, 0] + d;
    assert p[6..6 + |d|] == d;
    assert At(p, 6, d) by { AtHere(p, 6, d); }
    NumberReadsBack(UINT64_LIMIT - 1, p, |p|, 6);
    Small(1, p, |p|, 0);
    Small(3 + |d|, p, |p|, 2);
    Small(0, p, |p|, 4);
    Small(0, p, |p|, 5);
    hide Number;
    OversizedParsed(p, 2);
    assert p[1..2] == [0xf6];
    NullHeader();
    hide WithOversized, Oversized;
    BlocksOfOne(p, 2);
  }

  lemma NullHeader()
    ensures Decode([0xf6]) == Ok(Null)
  {
  }

  lemma BlocksOfOne(p: bytes, i: nat)
    requires i < |p| && ParseSection(p, i).Ok? && ParseSection(p, i).value.end == |p|
    ensures ParseBlocks(p, i, map[]) == Ok(map[ParseSection(p, i).value.cid := ParseSection(p, i).value.body])
  {
    hide ParseSection;
    var s := ParseSection(p, i).value;
    assert ParseBlocks(p, s.end, map[][s.cid := s.body]) == Ok(map[s.cid := s.body]);
  }

  lemma OversizedParsed(p: bytes, i: nat)
    requires i + 5 <= |p| <= i + 14 <= 20 && p[i + 1] == 1
    requires Number(p, |p|, i) == Ok(Decoded(|p| - i - 1, i + 1)) && Number(p, |p|, i + 2) == Ok(Decoded(0, i + 3))
    requires Number(p, |p|, i + 3) == Ok(Decoded(0, i + 4)) && Number(p, |p|, i + 4) == Ok(Decoded(UINT64_LIMIT - 1, |p|))
    ensures SectionAsMeant(p, i) == Err("truncated CID")
    ensures ParseSection(p, i) == Ok(Section(p[i + 1..|p| - 1], p[|p| - 1..], |p|))
  {
    hide Number;
    var size := CidNumbers(p, i + 1, |p|);
    assert size == Ok(Decoded(UINT64_LIMIT - 1, |p|));
    hide CidNumbers;
    var back := size.value.next + size.value.value - UINT64_LIMIT;
    assert back == |p| - 1 && p[back..|p|] == p[|p| - 1..];
    assert ParseSection(p, i) == Ok(Section(p[i + 1..back], p[back..|p|], |p|));
  }

  lemma AtHere(p: bytes, i: nat, bs: bytes)
    requires i + |bs| <= |p| && p[i..i + |bs|] == bs
    ensures At(p, i, bs)
  {
  }

  lemma AtMostTen(x: nat)
    requires x < UINT64_LIMIT
    ensures |Leb128(x)| <= 10
  {
    WholeAt(Leb128(x));
    VarintReadsBack(x, Leb128(x), |Leb128(x)|, 0);
  }

  lemma Small(x: nat, p: bytes, limit: nat, i: nat)
    requires i < limit <= |p| && x < 128 && p[i] == x
    ensures Number(p, limit, i) == Ok(Decoded(x, i + 1))
  {
  }

  // ---------------------------------------------------------------- rendering

  /** A version 1 content identifier: codec, hash function and digest. */
  datatype Cid = Cid(codec: nat, hash: nat, digest: bytes)

  datatype Block = Block(cid: Cid, body: bytes)

  function CidBytes(c: Cid): (bs: bytes)
    ensures |bs| >= 1
  {
    [1] + (Leb128(c.codec) + (Leb128(c.hash) + (Leb128(|c.digest|) + c.digest)))
  }

  predicate BlockFits(b: Block)
  {
    && b.cid.codec < UINT64_LIMIT && b.cid.hash < UINT64_LIMIT && |b.cid.digest| < UINT64_LIMIT
    && |CidBytes(b.cid)| + |b.body| < UINT64_LIMIT
  }

  function RenderBlock(b: Block): bytes
  {
    Leb128(|CidBytes(b.cid)| + |b.body|) + (CidBytes(b.cid) + b.body)
  }

  function RenderBlocks(bs: seq<Block>): bytes
  {
    if bs == [] then [] else RenderBlock(bs[0]) + RenderBlocks(bs[1..])
  }

  function RenderCar(header: Value, blocks: seq<Block>): bytes
    requires Fits(header)
  {
    Leb128(|Encode(header)|) + (Encode(header) + RenderBlocks(blocks))
  }

  /** The table a list of blocks fills, later blocks replacing earlier ones of the same name. */
  function BlockTable(bs: seq<Block>, table: map<bytes, bytes>): map<bytes, bytes>
  {
    if bs == [] then table else BlockTable(bs[1..], table[CidBytes(bs[0].cid) := bs[0].body])
  }

  lemma NumberReadsBack(x: nat, p: bytes, limit: nat, i: nat)
    requires limit <= |p| && x < UINT64_LIMIT
    requires At(p, i, Leb128(x)) && i + |Leb128(x)| <= limit
    ensures Number(p, limit, i) == Ok(Decoded(x, i + |Leb128(x)|))
  {
    VarintReadsBack(x, p, limit, i);
  }

  lemma BlockReadsBack(b: Block, p: bytes, i: nat)
    requires BlockFits(b) && At(p, i, RenderBlock(b))
    ensures ParseSection(p, i) == Ok(Section(CidBytes(b.cid), b.body, i + |RenderBlock(b)|))
  {
    hide At, Leb128, ReadVarint, Number;
    var c := b.cid;
    var cid := CidBytes(c);
    var len := Leb128(|cid| + |b.body|);
    var start := i + |len|;
    AtConcat(p, i, len, cid + b.body);
    AtConcat(p, start, cid, b.body);
    CidParts(c, p, start);
    assert start + |cid| + |b.body| <= |p| by { AtEnd(p, start + |cid|, b.body); }
    NumberReadsBack(|cid| + |b.body|, p, |p|, i);
    var end := start + |cid| + |b.body|;
    var j1 := start + 1;
    var j2 := j1 + |Leb128(c.codec)|;
    var j3 := j2 + |Leb128(c.hash)|;
    NumberReadsBack(c.codec, p, end, j1);
    NumberReadsBack(c.hash, p, end, j2);
    NumberReadsBack(|c.digest|, p, end, j3);
    AtEnd(p, start, cid);
    AtEnd(p, start + |cid|, b.body);
  }

  lemma AtEnd(p: bytes, i: nat, bs: bytes)
    requires At(p, i, bs)
    ensures i + |bs| <= |p| && p[i..i + |bs|] == bs
  {
  }

  lemma CidParts(c: Cid, p: bytes, i: nat)
    requires At(p, i, CidBytes(c))
    ensures i < |p| && p[i] == 1
    ensures At(p, i + 1, Leb128(c.codec))
    ensures At(p, i + 1 + |Leb128(c.codec)|, Leb128(c.hash))
    ensures At(p, i + 1 + |Leb128(c.codec)| + |Leb128(c.hash)|, Leb128(|c.digest|))
    ensures At(p, i + 1 + |Leb128(c.codec)| + |Leb128(c.hash)| + |Leb128(|c.digest|)|, c.digest)
  {
    hide Leb128;
    var a, h, d := Leb128(c.codec), Leb128(c.hash), Leb128(|c.digest|);
    assert p[i] == p[i..i + |CidBytes(c)|][0] == CidBytes(c)[0];
    AtConcat(p, i, [1], a + (h + (d + c.digest)));
    AtConcat(p, i + 1, a, h + (d + c.digest));
    AtConcat(p, i + 1 + |a|, h, d + c.digest);
    AtConcat(p, i + 1 + |a| + |h|, d, c.digest);
  }

  lemma {:induction false} BlocksReadBack(bs: seq<Block>, p: bytes, i: nat, table: map<bytes, bytes>)
    requires forall b <- bs :: BlockFits(b)
    requires At(p, i, RenderBlocks(bs)) && i + |RenderBlocks(bs)| == |p|
    ensures ParseBlocks(p, i, table) == Ok(BlockTable(bs, table))
  {
    hide ParseSection, RenderBlock;
    if bs != [] {
      AtConcat(p, i, RenderBlock(bs[0]), RenderBlocks(bs[1..]));
      BlockReadsBack(bs[0], p, i);
      BlocksReadBack(bs[1..], p, i + |RenderBlock(bs[0])|, table[CidBytes(bs[0].cid) := bs[0].body]);
    }
  }

  /** Parsing a rendered archive gives back its header and its block table. */
  lemma CarRoundTrip(header: Value, blocks: seq<Block>)
    requires Fits(header) && |Encode(header)| < UINT64_LIMIT
    requires forall b <- blocks :: BlockFits(b)
    ensures ParseCar(RenderCar(header, blocks)) == Ok(Archive(Flip(Normalize(header)), BlockTable(blocks, map[])))
  {
    hide At, Encode, Decode, Leb128, Number, ParseBlocks, RenderBlocks, BlockFits, Fits;
    var p := RenderCar(header, blocks);
    var h := Encode(header);
    var at := |Leb128(|h|)|;
    WholeAt(p);
    AtConcat(p, 0, Leb128(|h|), h + RenderBlocks(blocks));
    AtConcat(p, at, h, RenderBlocks(blocks));
    NumberReadsBack(|h|, p, |p|, 0);
    CborCanonical.DecodeOfEncode(header);
    AtEnd(p, at, h);
    BlocksReadBack(blocks, p, at + |h|, map[]);
  }

  // ---------------------------------------------------------------- the table with distinct names

  /** Identifiers with the same octets are the same identifier. */
  lemma CidBytesInjective(c: Cid, d: Cid)
    requires c.codec < UINT64_LIMIT && c.hash < UINT64_LIMIT && |c.digest| < UINT64_LIMIT
    requires d.codec < UINT64_LIMIT && d.hash < UINT64_LIMIT && |d.digest| < UINT64_LIMIT
    requires CidBytes(c) == CidBytes(d)
    ensures c == d
  {
    hide Leb128, ReadVarint, At;
    var p := CidBytes(c);
    WholeAt(p);
    CidParts(c, p, 0);
    CidParts(d, p, 0);
    SameNumber(c.codec, d.codec, p, 1);
    var at := 1 + |Leb128(c.codec)|;
    SameNumber(c.hash, d.hash, p, at);
    SameNumber(|c.digest|, |d.digest|, p, at + |Leb128(c.hash)|);
    var end := at + |Leb128(c.hash)| + |Leb128(|c.digest|)|;
    AtEnd(p, end, c.digest);
    AtEnd(p, end, d.digest);
  }

  lemma WholeAt(p: bytes)
    ensures At(p, 0, p)
  {
  }

  lemma SameNumber(x: nat, y: nat, p: bytes, i: nat)
    requires x < UINT64_LIMIT && y < UINT64_LIMIT
    requires At(p, i, Leb128(x)) && At(p, i, Leb128(y))
    ensures x == y
  {
    hide ReadVarint, Leb128;
    AtEnd(p, i, Leb128(x));
    AtEnd(p, i, Leb128(y));
    VarintReadsBack(x, p, |p|, i);
    VarintReadsBack(y, p, |p|, i);
  }

  ghost predicate DistinctCids(bs: seq<Block>)
  {
    forall i, j :: 0 <= i < j < |bs| ==> bs[i].cid != bs[j].cid
  }

  /** With distinct identifiers the table holds each block under its name and nothing else. */
  lemma DistinctBlockTable(bs: seq<Block>)
    requires DistinctCids(bs) && forall b <- bs :: BlockFits(b)
    ensures forall k :: k in BlockTable(bs, map[]) <==> exists b :: b in bs && CidBytes(b.cid) == k
    ensures forall b <- bs :: CidBytes(b.cid) in BlockTable(bs, map[]) && BlockTable(bs, map[])[CidBytes(b.cid)] == b.body
  {
    TableFrom(bs, map[]);
  }

  lemma {:induction false} TableFrom(bs: seq<Block>, table: map<bytes, bytes>)
    requires DistinctCids(bs) && forall b <- bs :: BlockFits(b)
    ensures forall k :: k in BlockTable(bs, table) <==> k in table || exists b :: b in bs && CidBytes(b.cid) == k
    ensures forall b <- bs :: CidBytes(b.cid) in BlockTable(bs, table) && BlockTable(bs, table)[CidBytes(b.cid)] == b.body
    ensures forall k <- table :: (forall b <- bs :: CidBytes(b.cid) != k) ==> BlockTable(bs, table)[k] == table[k]
  {
    hide CidBytes;
    if bs != [] {
      var key := CidBytes(bs[0].cid);
      TableFrom(bs[1..], table[key := bs[0].body]);
      assert forall b :: b in bs <==> b == bs[0] || b in bs[1..];
      forall b | b in bs[1..] ensures CidBytes(b.cid) != key {
        var j :| 0 <= j < |bs[1..]| && bs[1..][j] == b;
        assert bs[j + 1] == b;
        if CidBytes(b.cid) == key {
          assert BlockFits(b) && BlockFits(bs[0]);
          CidBytesInjective(b.cid, bs[0].cid);
        }
      }
    }
  }

  // ---------------------------------------------------------------- nothing skipped, nothing read twice

  /** The pieces a successful parse cuts the input into, in order. */
  ghost function Pieces(p: bytes, i: nat): seq<bytes>
    decreases |p| - i
  {
    if i >= |p| || ParseSection(p, i).Err? then []
    else
      var s := ParseSection(p, i).value;
      [LengthPrefix(p, i), s.cid, s.body] + Pieces(p, s.end)
  }

  ghost function LengthPrefix(p: bytes, i: nat): bytes
  {
    if Number(p, |p|, i).Ok? then p[i..Number(p, |p|, i).value.next] else []
  }

  lemma SectionTiles(p: bytes, i: nat)
    requires ParseSection(p, i).Ok?
    ensures var s := ParseSection(p, i).value;
            p[i..s.end] == LengthPrefix(p, i) + (s.cid + s.body)
  {
    hide ReadVarint;
    var s := ParseSection(p, i).value;
    var at := Number(p, |p|, i).value.next;
    assert s.cid + s.body == p[at..s.end];
  }

  /** Any input that parses is its header length, its header and the pieces of its blocks, end to end. */
  lemma {:induction false} BlocksTile(p: bytes, i: nat, table: map<bytes, bytes>)
    requires i <= |p| && ParseBlocks(p, i, table).Ok?
    ensures p[i..] == Join(Pieces(p, i))
    decreases |p| - i
  {
    hide ParseSection, LengthPrefix;
    if i < |p| {
      var s := ParseSection(p, i).value;
      var a := LengthPrefix(p, i);
      BlocksTile(p, s.end, table[s.cid := s.body]);
      SectionTiles(p, i);
      var rest := Pieces(p, s.end);
      assert [a, s.cid, s.body] + rest == [a] + ([s.cid] + ([s.body] + rest));
      JoinHead(a, [s.cid] + ([s.body] + rest));
      JoinHead(s.cid, [s.body] + rest);
      JoinHead(s.body, rest);
      assert p[i..] == p[i..s.end] + p[s.end..];
      assert a + (s.cid + s.body) + Join(rest) == a + (s.cid + (s.body + Join(rest)));
    }
  }

  lemma JoinHead(a: bytes, rest: seq<bytes>)
    ensures Join([a] + rest) == a + Join(rest)
  {
    assert ([a] + rest)[1..] == rest;
  }

  lemma EveryOctetOnce(p: bytes)
    requires ParseCar(p).Ok?
    ensures Number(p, |p|, 0).Ok?
    ensures var len := Number(p, |p|, 0).value;
            && len.next + len.value <= |p|
            && Decode(p[len.next..len.next + len.value]) == Ok(ParseCar(p).value.header)
            && p == p[..len.next] + (p[len.next..len.next + len.value] + Join(Pieces(p, len.next + len.value)))
  {
    hide Decode, Number, Pieces, ParseBlocks, ParseCar;
    ParsedParts(p);
    var len := Number(p, |p|, 0).value;
    var end := len.next + len.value;
    BlocksTile(p, end, map[]);
    ThreeParts(p, len.next, end);
  }

  lemma ParsedParts(p: bytes)
    requires ParseCar(p).Ok?
    ensures Number(p, |p|, 0).Ok?
    ensures var len := Number(p, |p|, 0).value;
            && len.next + len.value <= |p|
            && Decode(p[len.next..len.next + len.value]) == Ok(ParseCar(p).value.header)
            && ParseBlocks(p, len.next + len.value, map[]).Ok?
  {
    hide Decode, Number, ParseBlocks;
  }

  lemma ThreeParts(p: bytes, a: nat, b: nat)
    requires a <= b <= |p|
    ensures p == p[..a] + (p[a..b] + p[b..])
  {
  }
}
