/** A name server's check of a signed message (section 4.3 of RFC 8945), and that it accepts what is sent. */
module Rfc2136Verify {
  import opened Bytes
  import opened DnsCanonical
  import opened DnsWire
  import opened Outcome
  import opened Rfc2136

  // ---------------------------------------------------------------- the signature record

  datatype Tsig = Tsig(algorithm: seq<bytes>, time: nat, fudge: nat, mac: bytes, originalId: nat, error: nat, other: bytes)

  function ParseTsigFields(algorithm: seq<bytes>, a: bytes): Option<Tsig>
  {
    if |a| < 10 then None
    else
      var n := BeValue(a[8..10]);
      if |a| < 16 + n || |a| != 16 + n + BeValue(a[14 + n..16 + n]) then None
      else Some(Tsig(algorithm, BeValue(a[..6]), BeValue(a[6..8]), a[10..10 + n], BeValue(a[10 + n..12 + n]),
                     BeValue(a[12 + n..14 + n]), a[16 + n..]))
  }

  function ParseTsig(rdata: bytes): (r: Option<Tsig>)
    ensures r.Some? ==> LabelsFit(r.value.algorithm)
  {
    match ParseName(rdata)
    case None => None
    case Some((algorithm, a)) => ParseTsigFields(algorithm, a)
  }

  lemma TimeIsWide(now: nat)
    ensures TimeOctets(now) == BigEndian(now, 6)
    ensures BeValue(TimeOctets(now)) == now % 0x1_0000_0000_0000
    ensures BigEndian(now % 0x1_0000_0000_0000, 6) == TimeOctets(now)
  {
    NumberSplits(now, 2, 4);
    NumberSplits(now % 0x1_0000_0000, 0, 4);
    Digits32(now);
    Digits32(now % 0x1_0000_0000);
    assert BigEndian(now % 0x1_0000_0000, 4) == BigEndian(Kept(now, 4), 4);
    NumberReadsBack(now, 6);
    Digits48(now);
    OctetsReadBack(TimeOctets(now));
  }

  lemma TsigFieldPlaces(time: bytes, fudge: bytes, size: bytes, mac: bytes, id: bytes, error: bytes, other: bytes)
    requires |time| == 6 && |fudge| == 2 && |size| == 2 && |id| == 2 && |error| == 2 && |other| == 2
    ensures var a, n := time + fudge + size + mac + id + error + other, |mac|;
            && a[..6] == time && a[6..8] == fudge && a[8..10] == size && a[10..10 + n] == mac
            && a[10 + n..12 + n] == id && a[12 + n..14 + n] == error && a[14 + n..16 + n] == other && a[16 + n..] == []
  {
  }

  lemma AlgorithmLength()
    ensures |Algorithm()| == 11
  {
  }

  lemma {:induction false} TsigReadsBack(now: nat, mac: Mac, id: uint16)
    ensures ParseTsig(TsigRdata(now, mac, id)) ==
            Some(Tsig([Algorithm()], now % 0x1_0000_0000_0000, FUDGE, mac, id, 0, []))
  {
    hide U16, BeValue, TimeOctets, NameOctets, ParseName, Algorithm;
    AlgorithmLength();
    var a := TimeOctets(now) + U16(FUDGE) + U16(|mac|) + mac + U16(id) + U16(0) + U16(0);
    assert TsigRdata(now, mac, id) == NameOctets([Algorithm()]) + a;
    NameReadsBack([Algorithm()], a);
    TsigFieldPlaces(TimeOctets(now), U16(FUDGE), U16(|mac|), mac, U16(id), U16(0), U16(0));
    TimeIsWide(now);
    U16ReadsBack(FUDGE);
    U16ReadsBack(|mac|);
    U16ReadsBack(id);
    U16ReadsBack(0);
  }

  // ---------------------------------------------------------------- what the server digests

  /** The message as it stood before its last record was added, under the original number. */
  function Unsigned(s: bytes, end: nat, originalId: nat): bytes
    requires 12 <= end <= |s| && CountAt(s, 3) >= 1
  {
    U16(originalId) + s[2..10] + U16(CountAt(s, 3) - 1) + s[12..end]
  }

  function VariablesRead(r: Record, t: Tsig): bytes
    requires LabelsFit(r.name) && LabelsFit(t.algorithm)
  {
    NameOctets(LowerLabels(r.name)) + U16(r.rclass) + U32(r.ttl) + NameOctets(LowerLabels(t.algorithm))
    + BigEndian(t.time, 6) + U16(t.fudge) + U16(t.error) + U16(|t.other|) + t.other
  }

  /** The octets whose MAC the server compares, with the MAC it found. */
  function Digest(s: bytes): Option<(bytes, bytes)>
  {
    match ParseUpTo(s, 1)
    case None => None
    case Some((_, rest)) =>
      match ParseRecord(rest)
      case None => None
      case Some((r, end)) =>
        if end != [] || r.rtype != TYPE_TSIG || |s| < 12 + |rest| then None
        else
          match ParseTsig(r.rdata)
          case None => None
          case Some(t) => Some((Unsigned(s, |s| - |rest|, t.originalId) + VariablesRead(r, t), t.mac))
  }

  predicate Accepts(hmac: bytes -> Mac, s: bytes) { Digest(s).Some? && hmac(Digest(s).value.0) == Digest(s).value.1 }

  lemma UnsignedIsBody(body: bytes, more: bytes, id: uint16)
    requires |body| >= 12 && CountAt(body, 3) < 0xffff && BeValue(body[..2]) == id
    ensures var s := WithArcount(body + more, CountAt(body, 3) + 1);
            CountAt(s, 3) >= 1 && Unsigned(s, |body|, id) == body
  {
    hide BeValue, BigEndian;
    var s := WithArcount(body + more, CountAt(body, 3) + 1);
    SignedHeader(body, more, CountAt(body, 3) + 1);
    OctetsReadBack(body[..2]);
    OctetsReadBack(body[10..12]);
    assert s[12..|body|] == s[12..][..|body| - 12] == body[12..];
    assert body == body[..2] + body[2..10] + body[10..12] + body[12..];
  }

  /** The key name the server reads, lowered, is the one that was signed just when its labels end within 255 characters. */
  lemma {:induction false} KeyNamesAgree(key: bytes)
    requires LabelsFit(Labels(key))
    ensures LabelsFit(Labels(Canonical(key))) && LabelsFit(LowerLabels(Labels(key)))
    ensures Used(key) <= 255 ==> NameOctets(LowerLabels(Labels(key))) == NameOctets(Labels(Canonical(key)))
    ensures Used(key) > 255 ==> |NameOctets(LowerLabels(Labels(key)))| != |NameOctets(Labels(Canonical(key)))|
  {
    hide Labels, Used, LabelOctets;
    CanonicalFits(key);
    LabelsOfLower(key);
    assert forall i :: 0 <= i < |Labels(key)| ==> Labels(key)[i] in Labels(key);
    var cut := if |key| <= 255 then key else key[..255];
    LabelsOfLower(cut);
    if |key| > 255 {
      LabelsOfPrefix(key, 255);
    }
    if Used(key) > 255 {
      LabelOctetsLength(Lower(key));
      UsedLower(key);
      LabelOctetsLength(Canonical(key));
      NoLabelsUsed(key);
    }
  }

  lemma NoLabelsUsed(name: bytes)
    ensures Labels(name) == [] ==> Used(name) == 0
  {
  }

  lemma {:induction false} UsedLower(name: bytes)
    ensures Used(Lower(name)) == Used(name)
    decreases |name|
  {
    hide FirstDot, Lower;
    FirstDotLower(name);
    var n := FirstDot(name);
    if n == 0 || n == |name| {
    } else {
      hide Labels, Used;
      LowerSplit(name, n);
      LabelsOfLower(name[n + 1..]);
      UsedLower(name[n + 1..]);
      UsedStep(name, n);
      UsedStep(Lower(name), n);
    }
  }

  lemma SameEnds(a: bytes, x: bytes, y: bytes, b: bytes)
    ensures a + x + b == a + y + b <==> x == y
  {
    if a + x + b == a + y + b {
      assert |x| == |y|;
      assert (a + x + b)[|a|..|a| + |x|] == x && (a + y + b)[|a|..|a| + |y|] == y;
    }
  }

  /** The variables behind the key name. */
  function VariablesTail(now: nat): bytes
  {
    AlgorithmLength();
    U16(CLASS_ANY) + U32(0) + NameOctets([Algorithm()]) + TimeOctets(now) + U16(FUDGE) + U16(0) + U16(0)
  }

  lemma VariablesSigned(key: bytes, now: nat)
    requires LabelsFit(Labels(Canonical(key)))
    ensures TsigVariables(key, now) == NameOctets(Labels(Canonical(key))) + VariablesTail(now)
  {
    hide Labels, Algorithm, NameOctets, U16, U32, TimeOctets, Canonical;
    AlgorithmLength();
  }

  lemma VariablesReadBack(r: Record, t: Tsig, now: nat, mac: Mac, id: uint16)
    requires LabelsFit(r.name) && r.rclass == CLASS_ANY && r.ttl == 0
    requires t == Tsig([Algorithm()], now % 0x1_0000_0000_0000, FUDGE, mac, id, 0, [])
    ensures LabelsFit(t.algorithm) && LabelsFit(LowerLabels(r.name))
    ensures VariablesRead(r, t) == NameOctets(LowerLabels(r.name)) + VariablesTail(now)
  {
    hide Labels, Algorithm, NameOctets, U16, U32, TimeOctets, LowerLabels, BigEndian;
    AlgorithmLength();
    LowerAlgorithm();
    TimeIsWide(now);
    var tail := VariablesTail(now);
    assert tail + [] == tail;
    assert VariablesRead(r, t) == NameOctets(LowerLabels(r.name)) + (tail + []);
  }

  lemma LowerAlgorithm()
    ensures LowerLabels([Algorithm()]) == [Algorithm()]
  {
    hide Algorithm, Labels;
    AlgorithmLabels();
    AlgorithmLength();
    assert Canonical(Algorithm()) == Lower(Algorithm());
  }

  lemma VariablesAgree(key: bytes, now: nat, mac: Mac, id: uint16)
    requires LabelsFit(Labels(key))
    ensures var t := Tsig([Algorithm()], now % 0x1_0000_0000_0000, FUDGE, mac, id, 0, []);
            && LabelsFit(Labels(Canonical(key))) && LabelsFit(t.algorithm)
            && (VariablesRead(TsigRecord(key, now, mac, id), t) == TsigVariables(key, now) <==> Used(key) <= 255)
  {
    hide Labels, Algorithm, NameOctets, U16, U32, TimeOctets, TsigRdata, Used, Canonical, VariablesTail, TsigVariables, VariablesRead;
    var t := Tsig([Algorithm()], now % 0x1_0000_0000_0000, FUDGE, mac, id, 0, []);
    KeyNamesAgree(key);
    VariablesSigned(key, now);
    VariablesReadBack(TsigRecord(key, now, mac, id), t, now, mac, id);
    SameEnds([], NameOctets(LowerLabels(Labels(key))), NameOctets(Labels(Canonical(key))), VariablesTail(now));
  }

  /**
   * The server digests exactly the octets that were signed just when the key name ends within 255 characters, and
   * it always finds the MAC made over them.
   */
  lemma {:induction false} ServerDigests(hmac: bytes -> Mac, body: bytes, key: bytes, now: nat, id: uint16, m: Message)
    requires |body| >= 12 && CountAt(body, 3) < 0xffff && ParseMessage(body) == Some(m) && BeValue(body[..2]) == id
    requires Sign(hmac, body, key, now, id).Some?
    ensures LabelsFit(Labels(Canonical(key)))
    ensures var d := Digest(Sign(hmac, body, key, now, id).value);
            && d.Some? && d.value.1 == MacOf(hmac, body, key, now)
            && (d.value.0 == body + TsigVariables(key, now) <==> Used(key) <= 255)
  {
    hide ParseUpTo, ParseRecord, Labels, Used, TsigRdata, MacOf, ParseTsig, Unsigned, VariablesRead, TsigVariables, RecordOctets, ParseMessage;
    hide U16, BeValue, CountAt, Canonical, WithArcount, NameOctets, Algorithm;
    CanonicalFits(key);
    SignedParses(hmac, body, key, now, id, m);
    var mac := MacOf(hmac, body, key, now);
    var signature := TsigRecord(key, now, mac, id);
    var more := RecordOctets(signature);
    NamesFit(key);
    RecordReadsBack(signature, []);
    assert more + [] == more;
    TsigReadsBack(now, mac, id);
    UnsignedIsBody(body, more, id);
    VariablesAgree(key, now, mac, id);
    var t := Tsig([Algorithm()], now % 0x1_0000_0000_0000, FUDGE, mac, id, 0, []);
    SameEnds(body, VariablesRead(signature, t), TsigVariables(key, now), []);
  }

  // ---------------------------------------------------------------- results

  /** The signature record of a message: the key name, class ANY, no TTL, and these variables. */
  predicate SignedBy(r: Record, key: bytes, now: nat, id: nat)
  {
    && r == Record(Labels(key), TYPE_TSIG, CLASS_ANY, 0, r.rdata)
    && ParseTsig(r.rdata).Some?
    && ParseTsig(r.rdata) ==
       Some(Tsig([Algorithm()], now % 0x1_0000_0000_0000, FUDGE, ParseTsig(r.rdata).value.mac, id, 0, []))
  }

  /**
   * A finished update fits the buffer and reads as one zone, no prerequisite, the deletion of the TXT records, the
   * addition if there is a value, and one signature record, with nothing left over.
   */
  lemma {:induction false} UpdateReadsAsIntended(hmac: bytes -> Mac, id: uint16, zone: bytes, name: bytes, value: Option<bytes>,
                                                 ttl: int32, key: bytes, now: nat)
    requires Update(hmac, id, zone, name, value, ttl, key, now).Ok?
    ensures var s := Update(hmac, id, zone, name, value, ttl, key, now).value;
            && |s| <= CAPACITY && ParseMessage(s).Some?
            && var m := ParseMessage(s).value;
            && m.id == id && m.flags == FLAGS_UPDATE
            && m.sections.questions == [Question(Labels(zone), TYPE_SOA, CLASS_IN)]
            && m.sections.answers == []
            && m.sections.authority ==
               [Record(Labels(name), TYPE_TXT, CLASS_ANY, 0, [])]
               + (match value
                  case None => []
                  case Some(v) => [Record(Labels(name), TYPE_TXT, CLASS_IN, if ttl > 0 then ttl else DEFAULT_TTL, [|v|] + v)])
            && |m.sections.additional| == 1 && SignedBy(m.sections.additional[0], key, now, id)
  {
    hide ParseMessage, Sign, UpdateBody, TsigRdata, ParseTsig, Labels;
    var body := UpdateBody(id, zone, name, value, ttl);
    UpdateBodyParses(id, zone, name, value, ttl);
    SignedSections(hmac, body, key, now, id, ParseMessage(body).value);
  }

  lemma {:induction false} SignedSections(hmac: bytes -> Mac, body: bytes, key: bytes, now: nat, id: uint16, m: Message)
    requires |body| >= 12 && CountAt(body, 3) == 0 && ParseMessage(body) == Some(m) && m.sections.additional == []
    requires Sign(hmac, body, key, now, id).Some?
    ensures var s := Sign(hmac, body, key, now, id).value;
            && |s| <= CAPACITY && ParseMessage(s).Some?
            && var x := ParseMessage(s).value;
            && x == m.(sections := m.sections.(additional := x.sections.additional))
            && |x.sections.additional| == 1 && SignedBy(x.sections.additional[0], key, now, id)
  {
    hide ParseMessage, TsigRdata, ParseTsig, Labels, RecordOctets, MacOf, ParseUpTo;
    SignedParses(hmac, body, key, now, id, m);
    TsigReadsBack(now, MacOf(hmac, body, key, now), id);
  }

  lemma {:induction false} QueryReadsAsIntended(hmac: bytes -> Mac, id: uint16, name: bytes, key: bytes, now: nat)
    requires Query(hmac, id, name, key, now).Ok?
    ensures var s := Query(hmac, id, name, key, now).value;
            && |s| <= CAPACITY && ParseMessage(s).Some?
            && var m := ParseMessage(s).value;
            && m.id == id && m.flags == FLAGS_QUERY
            && m.sections.questions == [Question(Labels(name), TYPE_TXT, CLASS_IN)]
            && m.sections.answers == [] && m.sections.authority == []
            && |m.sections.additional| == 1 && SignedBy(m.sections.additional[0], key, now, id)
  {
    hide ParseMessage, Sign, QueryBody, TsigRdata, ParseTsig, Labels;
    var body := QueryBody(id, name);
    QueryBodyParses(id, name);
    SignedSections(hmac, body, key, now, id, ParseMessage(body).value);
  }

  /** The server accepts every update and query whose key name ends within 255 characters. */
  lemma {:induction false} ServerAccepts(hmac: bytes -> Mac, id: uint16, zone: bytes, name: bytes, value: Option<bytes>,
                                         ttl: int32, key: bytes, now: nat)
    requires Used(key) <= 255
    ensures var u := Update(hmac, id, zone, name, value, ttl, key, now); u.Ok? ==> Accepts(hmac, u.value)
    ensures var q := Query(hmac, id, name, key, now); q.Ok? ==> Accepts(hmac, q.value)
  {
    hide ParseMessage, Sign, UpdateBody, QueryBody, Labels, Digest, Used, TsigVariables;
    if Update(hmac, id, zone, name, value, ttl, key, now).Ok? {
      var body := UpdateBody(id, zone, name, value, ttl);
      UpdateBodyParses(id, zone, name, value, ttl);
      ServerDigests(hmac, body, key, now, id, ParseMessage(body).value);
    }
    if Query(hmac, id, name, key, now).Ok? {
      var body := QueryBody(id, name);
      QueryBodyParses(id, name);
      ServerDigests(hmac, body, key, now, id, ParseMessage(body).value);
    }
  }

  /** Names that DNS allows, of at most 253 characters with labels of at most 63, never overflow the buffer. */
  lemma {:induction false} LegalNamesFit(hmac: bytes -> Mac, id: uint16, zone: bytes, name: bytes, value: Option<bytes>,
                                         ttl: int32, key: bytes, now: nat)
    requires LabelsFit(Labels(zone)) && LabelsFit(Labels(name)) && LabelsFit(Labels(key)) && ValueFits(value)
    requires Used(zone) <= 253 && Used(name) <= 253 && Used(key) <= 253
    ensures Update(hmac, id, zone, name, value, ttl, key, now).Ok?
  {
    BodyLength(id, zone, name, value, ttl);
    hide Labels, Used, UpdateBody, Signed;
    SignedFits(hmac, UpdateBody(id, zone, name, value, ttl), key, now, id);
  }

  lemma BodyLength(id: nat, zone: bytes, name: bytes, value: Option<bytes>, ttl: int32)
    requires LabelsFit(Labels(zone)) && LabelsFit(Labels(name)) && ValueFits(value)
    ensures |UpdateBody(id, zone, name, value, ttl)| <= 18 + Used(zone) + 2 * (Used(name) + 12) + 256
  {
    hide Labels, Used, QuestionOctets, RecordOctets, RecordsOctets, Header;
    QuestionLength(Question(Labels(zone), TYPE_SOA, CLASS_IN), zone);
    ChangesLength(Changes(name, value, ttl));
    RecordLength(DeleteRecord(name), name);
    if value.Some? {
      RecordLength(AddRecord(name, value.value, ttl), name);
    }
  }

  lemma NameLength(name: bytes)
    requires LabelsFit(Labels(name))
    ensures |NameOctets(Labels(name))| <= Used(name) + 2
  {
    hide Labels, Used, LabelOctets;
    LabelOctetsLength(name);
  }

  lemma QuestionLength(q: Question, name: bytes)
    requires q.name == Labels(name) && LabelsFit(q.name)
    ensures |QuestionOctets(q)| <= Used(name) + 6
  {
    hide Labels, Used, NameOctets, U16;
    NameLength(name);
  }

  lemma RecordLength(r: Record, name: bytes)
    requires r.name == Labels(name) && LabelsFit(r.name)
    ensures |RecordOctets(r)| <= Used(name) + 12 + |r.rdata|
  {
    hide Labels, Used, NameOctets, U16, U32;
    NameLength(name);
  }

  lemma SignedFits(hmac: bytes -> Mac, body: bytes, key: bytes, now: nat, id: nat)
    requires |body| >= 12 && LabelsFit(Labels(key)) && |body| + Used(key) + 73 <= CAPACITY
    ensures Signed(hmac, body, key, now, id).Ok?
  {
    hide Labels, Used, RecordOctets, MacOf, WithArcount, TsigRdata, CountAt;
    RecordLength(TsigRecord(key, now, MacOf(hmac, body, key, now), id), key);
  }

  /** Longer key names are sent all the same, and then the server, if it digests what it reads, digests other octets than
      those that were signed. */
  lemma {:induction false} LongKeysAreSent(hmac: bytes -> Mac, id: uint16, name: bytes, key: bytes, now: nat)
    requires LabelsFit(Labels(name)) && LabelsFit(Labels(key)) && Used(name) <= 253 && 255 < Used(key) <= 3000
    ensures LabelsFit(Labels(Canonical(key))) && Query(hmac, id, name, key, now).Ok?
    ensures var signed, d := QueryBody(id, name) + TsigVariables(key, now), Digest(Query(hmac, id, name, key, now).value);
            d.Some? && d.value.1 == hmac(signed) && d.value.0 != signed
  {
    QueryFits(hmac, id, name, key, now);
    hide ParseMessage, Sign, QueryBody, Labels, Digest, Used, TsigVariables;
    var body := QueryBody(id, name);
    QueryBodyParses(id, name);
    ServerDigests(hmac, body, key, now, id, ParseMessage(body).value);
  }

  lemma QueryFits(hmac: bytes -> Mac, id: uint16, name: bytes, key: bytes, now: nat)
    requires LabelsFit(Labels(name)) && LabelsFit(Labels(key)) && Used(name) <= 253 && Used(key) <= 3000
    ensures Query(hmac, id, name, key, now).Ok?
  {
    hide Labels, Used, QuestionOctets, Header, Signed;
    QuestionLength(Question(Labels(name), TYPE_TXT, CLASS_IN), name);
    SignedFits(hmac, QueryBody(id, name), key, now, id);
  }

  function SixtyTimesA(): (r: bytes)
    ensures |r| == 60 && forall k :: 0 <= k < 60 ==> r[k] == 97
  {
    seq(60, _ => 97)
  }

  /** Labels of sixty times the letter a. */
  function LongKey(n: nat): (key: bytes)
    ensures |key| == 61 * n + 60
  {
    if n == 0 then SixtyTimesA() else SixtyTimesA() + [DOT] + LongKey(n - 1)
  }

  /** There are such keys: five labels make one. */
  lemma {:induction false} LongKeyIsLong(n: nat)
    ensures LabelsFit(Labels(LongKey(n))) && Labels(LongKey(n)) != [] && Used(LongKey(n)) == 61 * n + 60
  {
    hide FirstDot, Labels, Used, LabelsFit, SixtyTimesA;
    FirstDotOfLong(n);
    if n == 0 {
      OneLabel(LongKey(0));
    } else {
      var key := LongKey(n);
      LongKeyIsLong(n - 1);
      assert key[..60] == SixtyTimesA() && key[61..] == LongKey(n - 1);
      hide LongKey;
      UsedStep(key, 60);
      FitsStep(SixtyTimesA(), Labels(key[61..]));
    }
  }

  lemma FirstDotOfLong(n: nat)
    ensures FirstDot(LongKey(n)) == 60
  {
    FirstDotIs(LongKey(n), 60);
  }

  lemma OneLabel(name: bytes)
    requires 0 < |name| <= 63 && FirstDot(name) == |name|
    ensures Labels(name) == [name] && LabelsFit(Labels(name)) && Used(name) == |name|
  {
  }

  lemma SomeKeysAreLong()
    ensures LabelsFit(Labels(LongKey(4))) && 255 < Used(LongKey(4)) <= 3000
  {
    LongKeyIsLong(4);
  }

  lemma ChangesLength(rs: seq<Record>)
    requires 1 <= |rs| <= 2 && forall i :: 0 <= i < |rs| ==> LabelsFit(rs[i].name)
    ensures |RecordsOctets(rs)| == |RecordOctets(rs[0])| + if |rs| == 2 then |RecordOctets(rs[1])| else 0
  {
    hide RecordOctets;
    assert rs[..1][..0] == [];
    if |rs| == 1 {
      assert rs == rs[..1];
    }
  }
}
