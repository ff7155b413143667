/** Signed dynamic updates and queries: what is sent, and what a name server reads in it. */
module Rfc2136 {
  import opened Bytes
  import opened DnsCanonical
  import opened DnsWire
  import opened Outcome

  const CAPACITY := 4096
  const FUDGE := 300
  const DEFAULT_TTL := 300
  const FLAGS_QUERY := 0x0100
  const FLAGS_UPDATE := 0x2800

  type Mac = m: bytes | |m| == 32 witness seq(32, i => 0)
  type uint16 = x: int | 0 <= x < 0x10000
  type int32 = x: int | -0x8000_0000 <= x < 0x8000_0000

  // ---------------------------------------------------------------- signing

  /** Seconds as 48 bits, written as 16 and 32. */
  function TimeOctets(now: nat): (r: bytes)
    ensures |r| == 6
  {
    U16(now / 0x1_0000_0000) + U32(now % 0x1_0000_0000)
  }

  /** The variables that follow the message in the digest. */
  function TsigVariables(key: bytes, now: nat): bytes
    requires LabelsFit(Labels(Canonical(key)))
  {
    NameOctets(Labels(Canonical(key))) + U16(CLASS_ANY) + U32(0) + NameOctets([Algorithm()])
    + TimeOctets(now) + U16(FUDGE) + U16(0) + U16(0)
  }

  function TsigRdata(now: nat, mac: Mac, id: nat): (r: bytes)
    ensures |r| == 61
  {
    NameOctets([Algorithm()]) + TimeOctets(now) + U16(FUDGE) + U16(|mac|) + mac + U16(id) + U16(0) + U16(0)
  }

  function TsigRecord(key: bytes, now: nat, mac: Mac, id: nat): Record
  {
    Record(Labels(key), TYPE_TSIG, CLASS_ANY, 0, TsigRdata(now, mac, id))
  }

  /** The message with another ARCOUNT. */
  function WithArcount(s: bytes, count: nat): (r: bytes)
    requires |s| >= 12
    ensures |r| == |s| && r[12..] == s[12..]
  {
    s[..10] + U16(count) + s[12..]
  }

  lemma CanonicalFits(key: bytes)
    requires LabelsFit(Labels(key))
    ensures LabelsFit(Labels(Canonical(key)))
  {
    hide Lower, Labels;
    var cut := if |key| <= 255 then key else key[..255];
    if |key| > 255 {
      LabelsOfPrefix(key, 255);
    }
    LabelsOfLower(cut);
    assert forall i :: 0 <= i < |Labels(cut)| ==> LowerLabels(Labels(cut))[i] == Lower(Labels(cut)[i]) && Labels(cut)[i] in Labels(cut);
  }

  function MacOf(hmac: bytes -> Mac, body: bytes, key: bytes, now: nat): Mac
    requires LabelsFit(Labels(key))
  {
    CanonicalFits(key);
    hmac(body + TsigVariables(key, now))
  }

  /** The message with its signature record and ARCOUNT raised by one, if it fits. */
  function Sign(hmac: bytes -> Mac, body: bytes, key: bytes, now: nat, id: nat): Option<bytes>
    requires |body| >= 12
  {
    if !LabelsFit(Labels(key)) then None
    else
      var signed := body + RecordOctets(TsigRecord(key, now, MacOf(hmac, body, key, now), id));
      if |signed| > CAPACITY then None else Some(WithArcount(signed, CountAt(body, 3) + 1))
  }

  // ---------------------------------------------------------------- messages

  function Header(id: nat, flags: nat, zones: nat, prerequisites: nat, updates: nat): (r: bytes)
    ensures |r| == 12
  {
    U16(id) + U16(flags) + U16(zones) + U16(prerequisites) + U16(updates) + U16(0)
  }

  function Ttl(ttl: int32): nat { if ttl > 0 then ttl else DEFAULT_TTL }

  /** Deletes every TXT record at the name. */
  function DeleteRecord(name: bytes): Record { Record(Labels(name), TYPE_TXT, CLASS_ANY, 0, []) }

  function AddRecord(name: bytes, value: bytes, ttl: int32): Record
    requires |value| <= 255
  {
    Record(Labels(name), TYPE_TXT, CLASS_IN, Ttl(ttl), [|value|] + value)
  }

  predicate ValueFits(value: Option<bytes>) { value.None? || |value.value| <= 255 }

  function Changes(name: bytes, value: Option<bytes>, ttl: int32): (rs: seq<Record>)
    requires ValueFits(value)
    ensures |rs| == if value.Some? then 2 else 1
  {
    match value
    case None => [DeleteRecord(name)]
    case Some(v) => [DeleteRecord(name), AddRecord(name, v, ttl)]
  }

  function RecordsOctets(rs: seq<Record>): bytes
    requires forall i :: 0 <= i < |rs| ==> LabelsFit(rs[i].name)
  {
    if rs == [] then [] else RecordsOctets(rs[..|rs| - 1]) + RecordOctets(rs[|rs| - 1])
  }

  function UpdateBody(id: nat, zone: bytes, name: bytes, value: Option<bytes>, ttl: int32): (r: bytes)
    requires LabelsFit(Labels(zone)) && LabelsFit(Labels(name)) && ValueFits(value)
    ensures |r| >= 12
  {
    Header(id, FLAGS_UPDATE, 1, 0, |Changes(name, value, ttl)|)
    + QuestionOctets(Question(Labels(zone), TYPE_SOA, CLASS_IN))
    + RecordsOctets(Changes(name, value, ttl))
  }

  function QueryBody(id: nat, name: bytes): (r: bytes)
    requires LabelsFit(Labels(name))
    ensures |r| >= 12
  {
    Header(id, FLAGS_QUERY, 1, 0, 0) + QuestionOctets(Question(Labels(name), TYPE_TXT, CLASS_IN))
  }

  datatype Refusal = ValueTooLong | TooLarge | NotSigned

  function Signed(hmac: bytes -> Mac, body: bytes, key: bytes, now: nat, id: nat): Result<bytes, Refusal>
    requires |body| >= 12
  {
    if |body| > CAPACITY then Err(TooLarge)
    else
      match Sign(hmac, body, key, now, id)
      case None => Err(NotSigned)
      case Some(m) => Ok(m)
  }

  /** The update message: the zone, the deletion, and the addition if there is a value. */
  function Update(hmac: bytes -> Mac, id: uint16, zone: bytes, name: bytes, value: Option<bytes>, ttl: int32,
                  key: bytes, now: nat): Result<bytes, Refusal>
  {
    if !ValueFits(value) then Err(ValueTooLong)
    else if !LabelsFit(Labels(zone)) || !LabelsFit(Labels(name)) then Err(TooLarge)
    else Signed(hmac, UpdateBody(id, zone, name, value, ttl), key, now, id)
  }

  function Query(hmac: bytes -> Mac, id: uint16, name: bytes, key: bytes, now: nat): Result<bytes, Refusal>
  {
    if !LabelsFit(Labels(name)) then Err(TooLarge)
    else Signed(hmac, QueryBody(id, name), key, now, id)
  }

  // ---------------------------------------------------------------- what a server reads

  lemma NamesFit(name: bytes)
    requires LabelsFit(Labels(name))
    ensures NameFits(Labels(name))
  {
  }

  lemma {:induction false} RecordsReadBack(rs: seq<Record>, t: bytes)
    requires forall i :: 0 <= i < |rs| ==> LabelsFit(rs[i].name) && RecordFits(rs[i])
    ensures ParseRecords(RecordsOctets(rs) + t, |rs|) == Some((rs, t))
  {
    hide RecordOctets, ParseRecord;
    if rs == [] {
      assert RecordsOctets(rs) + t == t;
    } else {
      var n := |rs| - 1;
      var u := RecordOctets(rs[n]) + t;
      assert RecordsOctets(rs) + t == RecordsOctets(rs[..n]) + u;
      RecordsReadBack(rs[..n], u);
      RecordReadsBack(rs[n], t);
      assert rs[..n] + [rs[n]] == rs;
    }
  }

  lemma {:induction false} HeaderReadsBack(id: uint16, flags: uint16, zones: uint16, prerequisites: uint16, updates: uint16, t: bytes)
    ensures var s := Header(id, flags, zones, prerequisites, updates) + t;
            && BeValue(s[..2]) == id && BeValue(s[2..4]) == flags
            && CountAt(s, 0) == zones && CountAt(s, 1) == prerequisites && CountAt(s, 2) == updates && CountAt(s, 3) == 0
            && s[12..] == t
  {
    hide U16, BeValue;
    var s := Header(id, flags, zones, prerequisites, updates) + t;
    assert s[..2] == U16(id) && s[2..4] == U16(flags) && s[4..6] == U16(zones) && s[6..8] == U16(prerequisites);
    assert s[8..10] == U16(updates) && s[10..12] == U16(0);
    U16ReadsBack(id);
    U16ReadsBack(flags);
    U16ReadsBack(zones);
    U16ReadsBack(prerequisites);
    U16ReadsBack(updates);
    U16ReadsBack(0);
  }

  /** Before it is signed, an update is one zone, no prerequisite, the changes and no additional record. */
  lemma {:induction false} UpdateBodyParses(id: uint16, zone: bytes, name: bytes, value: Option<bytes>, ttl: int32)
    requires LabelsFit(Labels(zone)) && LabelsFit(Labels(name)) && ValueFits(value)
    ensures ParseMessage(UpdateBody(id, zone, name, value, ttl)) ==
            Some(Message(id, FLAGS_UPDATE, Sections([Question(Labels(zone), TYPE_SOA, CLASS_IN)], [], Changes(name, value, ttl), [])))
    ensures CountAt(UpdateBody(id, zone, name, value, ttl), 3) == 0 && BeValue(UpdateBody(id, zone, name, value, ttl)[..2]) == id
  {
    hide U16, BeValue, QuestionOctets, RecordsOctets, Header, ParseSections, NameFits, Labels;
    var q, rs := Question(Labels(zone), TYPE_SOA, CLASS_IN), Changes(name, value, ttl);
    var t := QuestionOctets(q) + RecordsOctets(rs);
    assert UpdateBody(id, zone, name, value, ttl) == Header(id, FLAGS_UPDATE, 1, 0, |rs|) + t;
    HeaderReadsBack(id, FLAGS_UPDATE, 1, 0, |rs|, t);
    NamesFit(zone);
    NamesFit(name);
    SectionsReadBack(q, rs);
  }

  lemma {:induction false} SectionsReadBack(q: Question, rs: seq<Record>)
    requires NameFits(q.name) && q.qtype < 0x10000 && q.qclass < 0x10000
    requires forall i :: 0 <= i < |rs| ==> LabelsFit(rs[i].name) && RecordFits(rs[i])
    ensures ParseSections(QuestionOctets(q) + RecordsOctets(rs), 1, 0, |rs|, 0) == Some((Sections([q], [], rs, []), []))
  {
    hide QuestionOctets, RecordOctets, ParseQuestion, ParseRecord;
    var octets := RecordsOctets(rs);
    QuestionReadsBack(q, octets);
    OneQuestion(QuestionOctets(q) + octets, q, octets);
    assert octets + [] == octets;
    RecordsReadBack(rs, []);
  }

  lemma {:induction false} QueryBodyParses(id: uint16, name: bytes)
    requires LabelsFit(Labels(name))
    ensures ParseMessage(QueryBody(id, name)) ==
            Some(Message(id, FLAGS_QUERY, Sections([Question(Labels(name), TYPE_TXT, CLASS_IN)], [], [], [])))
    ensures CountAt(QueryBody(id, name), 3) == 0 && BeValue(QueryBody(id, name)[..2]) == id
  {
    hide U16, BeValue, QuestionOctets, Header, ParseQuestion, ParseRecord;
    var q := Question(Labels(name), TYPE_TXT, CLASS_IN);
    var t := QuestionOctets(q);
    HeaderReadsBack(id, FLAGS_QUERY, 1, 0, 0, t);
    NamesFit(name);
    QuestionReadsBack(q, []);
    assert t + [] == t;
    OneQuestion(t, q, []);
  }

  /** A signed message is the message that was signed with one more additional record, the signature, and nothing else. */
  lemma {:induction false} SignedParses(hmac: bytes -> Mac, body: bytes, key: bytes, now: nat, id: uint16, m: Message)
    requires |body| >= 12 && CountAt(body, 3) < 0xffff && ParseMessage(body) == Some(m)
    requires Sign(hmac, body, key, now, id).Some?
    ensures var signature := TsigRecord(key, now, MacOf(hmac, body, key, now), id);
            var s := Sign(hmac, body, key, now, id).value;
            && |s| <= CAPACITY
            && ParseMessage(s) == Some(m.(sections := m.sections.(additional := m.sections.additional + [signature])))
            && ParseUpTo(s, 1) == Some((m, RecordOctets(signature)))
            && CountAt(s, 3) == CountAt(body, 3) + 1
  {
    hide ParseSections, RecordOctets, ParseRecord, Labels, TsigRdata, MacOf, U16, BeValue;
    var signature := TsigRecord(key, now, MacOf(hmac, body, key, now), id);
    var more := RecordOctets(signature);
    var s := Sign(hmac, body, key, now, id).value;
    SignedHeader(body, more, CountAt(body, 3) + 1);
    assert s == WithArcount(body + more, CountAt(body, 3) + 1);
    assert s[12..] == body[12..] + more;
    ParseSectionsMore(body[12..], CountAt(body, 0), CountAt(body, 1), CountAt(body, 2), CountAt(body, 3), more);
    ParseSectionsOneMore(s[12..], CountAt(body, 0), CountAt(body, 1), CountAt(body, 2), CountAt(body, 3));
    assert [] + more == more;
    NamesFit(key);
    RecordReadsBack(signature, []);
    assert more + [] == more;
  }

  lemma SignedHeader(body: bytes, more: bytes, count: uint16)
    requires |body| >= 12
    ensures var s := WithArcount(body + more, count);
            && s[..2] == body[..2] && s[2..4] == body[2..4] && s[2..10] == body[2..10] && s[12..] == body[12..] + more
            && CountAt(s, 0) == CountAt(body, 0) && CountAt(s, 1) == CountAt(body, 1) && CountAt(s, 2) == CountAt(body, 2)
            && CountAt(s, 3) == count
  {
    var s := WithArcount(body + more, count);
    assert s[..2] == body[..2] && s[2..4] == body[2..4] && s[4..6] == body[4..6] && s[6..8] == body[6..8] && s[8..10] == body[8..10];
    assert s[10..12] == U16(count);
    U16ReadsBack(count);
  }
}
