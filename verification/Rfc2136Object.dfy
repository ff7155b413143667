/** The fixed-size message buffer, the signing in place, and the walk that builds each message. */
module Rfc2136Object {
  import opened Bytes
  import opened DnsCanonical
  import opened DnsWire
  import opened Outcome
  import opened Rfc2136

  /** What has been asked for so far and what is asked for next; once something was refused there is no way back. */
  function Both(a: Option<bytes>, b: Option<bytes>): Option<bytes>
  {
    if a.None? || b.None? then None else Some(a.value + b.value)
  }

  lemma BothAssociates(a: Option<bytes>, b: Option<bytes>, c: Option<bytes>)
    ensures Both(Both(a, b), c) == Both(a, Both(b, c))
  {
    if a.Some? && b.Some? && c.Some? {
      assert a.value + b.value + c.value == a.value + (b.value + c.value);
    }
  }

  /** The octets of a name, unless a label is too long. */
  function NameWanted(name: bytes): Option<bytes>
  {
    if LabelsFit(Labels(name)) then Some(NameOctets(Labels(name))) else None
  }

  lemma NameWantedStep(name: bytes)
    ensures var n := FirstDot(name);
            NameWanted(name) ==
            if n == 0 then Some([0])
            else if n > 63 then None
            else if n == |name| then Both(Both(Some([n]), Some(name)), Some([0]))
            else Both(Both(Some([n]), Some(name[..n])), NameWanted(name[n + 1..]))
  {
    LabelsStep(name);
    hide FirstDot, Labels, LabelsFit, NameOctets;
    var n := FirstDot(name);
    NoLabels();
    if n == 0 {
    } else if n == |name| {
      LabelsWantedStep(name, []);
    } else {
      LabelsWantedStep(name[..n], Labels(name[n + 1..]));
    }
  }

  lemma LabelsStep(name: bytes)
    ensures var n := FirstDot(name);
            Labels(name) == if n == 0 then [] else if n == |name| then [name] + [] else [name[..n]] + Labels(name[n + 1..])
  {
    hide FirstDot;
    assert [name] + [] == [name];
  }

  lemma NoLabels()
    ensures LabelsFit([]) && NameOctets([]) == [0]
  {
  }

  lemma LabelsWantedStep(l: bytes, ls: seq<bytes>)
    ensures LabelsFit([l] + ls) <==> |l| <= 63 && LabelsFit(ls)
    ensures LabelsFit([l] + ls) ==> NameOctets([l] + ls) == [|l|] + l + NameOctets(ls)
  {
    FitsStep(l, ls);
    assert ([l] + ls)[1..] == ls;
    if LabelsFit([l] + ls) {
      assert LabelOctets([l] + ls) == [|l|] + l + LabelOctets(ls);
    }
  }

  class Msg {
    const data: array<byte>
    var len: nat
    var overflow: bool
    /** Everything the message was asked to hold. */
    ghost var wanted: Option<bytes>

    /** The buffer holds what was asked for, and the overflow flag is set if that was too much. */
    ghost predicate Valid()
      reads this, data
    {
      && data.Length == CAPACITY && len <= CAPACITY
      && (overflow <==> wanted.None? || |wanted.value| > CAPACITY)
      && (!overflow ==> data[..len] == wanted.value)
    }

    constructor ()
      ensures Valid() && wanted == Some([]) && fresh(data)
    {
      data := new byte[CAPACITY];
      len, overflow, wanted := 0, false, Some([]);
    }

    method PutBytes(bs: bytes)
      requires Valid()
      modifies this, data
      ensures Valid() && wanted == Both(old(wanted), Some(bs))
      ensures old(overflow) ==> overflow
    {
      wanted := Both(wanted, Some(bs));
      if overflow || len + |bs| > data.Length {
        overflow := true;
        return;
      }
      forall i | 0 <= i < |bs| {
        data[len + i] := bs[i];
      }
      len := len + |bs|;
      assert data[..len] == old(data[..len]) + bs;
    }

    method PutU8(value: nat)
      requires Valid()
      modifies this, data
      ensures Valid() && wanted == Both(old(wanted), Some([value % 256]))
    {
      PutBytes([value % 256]);
    }

    method PutU16(value: nat)
      requires Valid()
      modifies this, data
      ensures Valid() && wanted == Both(old(wanted), Some(U16(value)))
    {
      U16Is(value);
      PutBytes([value / 256 % 256, value % 256]);
    }

    method PutU32(value: nat)
      requires Valid()
      modifies this, data
      ensures Valid() && wanted == Both(old(wanted), Some(U32(value)))
    {
      U32Is(value);
      PutBytes([value / 0x1000000 % 256, value / 0x10000 % 256, value / 256 % 256, value % 256]);
    }

    /** Label by label; an empty label ends the name, a label of more than 63 octets sets the flag for good. */
    method PutName(name: bytes)
      requires Valid()
      modifies this, data
      ensures Valid() && wanted == Both(old(wanted), NameWanted(name))
    {
      hide NameWanted, FirstDot;
      var p := name;
      while p != []
        invariant Valid() && Both(wanted, NameWanted(p)) == Both(old(wanted), NameWanted(name))
        decreases |p|
      {
        NameWantedStep(p);
        var size := FirstDot(p);
        if size == 0 {
          break;
        }
        if size > 63 {
          overflow, wanted := true, None;
          return;
        }
        ghost var before := wanted;
        PutU8(size);
        PutBytes(p[..size]);
        assert [size % 256] == [size];
        BothAssociates(before, Some([size]), Some(p[..size]));
        if size == |p| {
          assert p[..size] == p;
          BothAssociates(before, Both(Some([size]), Some(p)), Some([0]));
          p := [];
          break;
        }
        BothAssociates(before, Both(Some([size]), Some(p[..size])), NameWanted(p[size + 1..]));
        p := p[size + 1..];
      }
      if p == [] {
        NameWantedStep([]);
      }
      PutU8(0);
    }

    /** The same in lower case, at most 255 characters of it. */
    method PutNameCanonical(name: bytes)
      requires Valid()
      modifies this, data
      ensures Valid() && wanted == Both(old(wanted), NameWanted(Canonical(name)))
    {
      var lowered: bytes := [];
      var i := 0;
      while i < |name| && i + 1 < 256
        invariant i <= |name| && i <= 255 && lowered == Lower(name[..i])
      {
        lowered := lowered + [LowerByte(name[i])];
        i := i + 1;
      }
      assert name[..i] == if |name| <= 255 then name else name[..255];
      PutName(lowered);
    }
  }

  lemma U16Is(v: nat)
    ensures U16(v) == [v / 256 % 256, v % 256]
  {
    assert BigEndian(v / 256, 1) == BigEndian(v / 256 / 256, 0) + [v / 256 % 256];
  }

  lemma U32Is(v: nat)
    ensures U32(v) == [v / 0x1000000 % 256, v / 0x10000 % 256, v / 256 % 256, v % 256]
  {
    var a := v / 256;
    var b := a / 256;
    assert b == v / 0x10000 && b / 256 == v / 0x1000000;
    U16Is(b);
    assert U32(v) == BigEndian(a, 3) + [v % 256] == BigEndian(b, 2) + [a % 256] + [v % 256];
  }

  // ---------------------------------------------------------------- signing in place

  /** Appending pieces that are not refused. */
  lemma BothSome(w: Option<bytes>, a: bytes, b: bytes)
    ensures Both(Both(w, Some(a)), Some(b)) == Both(w, Some(a + b))
  {
    BothAssociates(w, Some(a), Some(b));
  }

  method PutTime(m: Msg, now: nat)
    requires m.Valid()
    modifies m, m.data
    ensures m.Valid() && m.wanted == Both(old(m.wanted), Some(TimeOctets(now)))
  {
    hide U16, U32;
    ghost var before := m.wanted;
    m.PutU16(now / 0x1_0000_0000);
    m.PutU32(now % 0x1_0000_0000);
    BothSome(before, U16(now / 0x1_0000_0000), U32(now % 0x1_0000_0000));
  }

  lemma AlgorithmWanted()
    ensures LabelsFit([Algorithm()]) && NameWanted(Algorithm()) == Some(NameOctets([Algorithm()]))
    ensures Canonical(Algorithm()) == Algorithm()
  {
    AlgorithmLabels();
  }

  /** The variables of the digest, in a buffer of their own. */
  method DigestVariables(key: bytes, now: nat) returns (vars: Msg)
    ensures vars.Valid() && fresh(vars) && fresh(vars.data)
    ensures vars.wanted == if LabelsFit(Labels(Canonical(key))) then Some(TsigVariables(key, now)) else None
    ensures vars.overflow <==> !LabelsFit(Labels(Canonical(key)))
  {
    hide U16, U32, Labels, Canonical, TimeOctets, Algorithm, NameOctets, LabelsFit;
    AlgorithmWanted();
    vars := new Msg();
    vars.PutNameCanonical(key);
    vars.PutU16(CLASS_ANY);
    vars.PutU32(0);
    vars.PutNameCanonical(Algorithm());
    PutTime(vars, now);
    vars.PutU16(FUDGE);
    vars.PutU16(0);
    vars.PutU16(0);
    if LabelsFit(Labels(Canonical(key))) {
      VariablesShort(key, now);
      assert [] + NameOctets(Labels(Canonical(key))) == NameOctets(Labels(Canonical(key)));
    }
  }

  lemma VariablesShort(key: bytes, now: nat)
    requires LabelsFit(Labels(Canonical(key)))
    ensures |TsigVariables(key, now)| <= CAPACITY
  {
    LabelOctetsLength(Canonical(key));
    hide Labels, LabelOctets, Canonical;
    assert |Canonical(key)| <= 255 by {
      CanonicalShort(key);
    }
    AlgorithmSize();
  }

  lemma CanonicalShort(key: bytes)
    ensures |Canonical(key)| <= 255
  {
  }

  lemma AlgorithmSize()
    ensures LabelsFit([Algorithm()]) && |NameOctets([Algorithm()])| == 13
  {
    assert |LabelOctets([Algorithm()])| == 12;
  }

  method PutRdata(m: Msg, now: nat, mac: Mac, id: nat)
    requires m.Valid()
    modifies m, m.data
    ensures m.Valid() && m.wanted == Both(old(m.wanted), Some(TsigRdata(now, mac, id)))
  {
    hide U16, Canonical, TimeOctets, Algorithm, NameOctets, LabelsFit, Msg.Valid;
    AlgorithmWanted();
    ghost var before := m.wanted;
    m.PutNameCanonical(Algorithm());
    PutTime(m, now);
    m.PutU16(FUDGE);
    m.PutU16(|mac|);
    m.PutBytes(mac);
    m.PutU16(id);
    m.PutU16(0);
    m.PutU16(0);
    if before.Some? {
      assert m.wanted.value == before.value + TsigRdata(now, mac, id);
    }
  }

  /** The owner and the fixed fields of the signature record, up to RDLENGTH. */
  function SignatureHead(key: bytes): Option<bytes>
  {
    if LabelsFit(Labels(key)) then Some(NameOctets(Labels(key)) + U16(TYPE_TSIG) + U16(CLASS_ANY) + U32(0)) else None
  }

  method PutSignatureHead(m: Msg, key: bytes)
    requires m.Valid()
    modifies m, m.data
    ensures m.Valid() && m.wanted == Both(old(m.wanted), SignatureHead(key))
  {
    hide U16, U32, Labels, NameOctets, LabelsFit, Msg.Valid;
    ghost var before := m.wanted;
    m.PutName(key);
    m.PutU16(TYPE_TSIG);
    m.PutU16(CLASS_ANY);
    m.PutU32(0);
    if before.Some? && LabelsFit(Labels(key)) {
      assert m.wanted.value == before.value + SignatureHead(key).value;
    }
  }

  /** Overwrites two octets already written. */
  method PatchU16(m: Msg, at: nat, value: nat)
    requires m.Valid() && !m.overflow && at + 2 <= m.len
    modifies m`wanted, m.data
    ensures m.Valid() && !m.overflow
    ensures m.wanted == Some(old(m.wanted).value[..at] + U16(value) + old(m.wanted).value[at + 2..])
  {
    ghost var w := m.wanted.value;
    m.data[at] := value / 256 % 256;
    m.data[at + 1] := value % 256;
    U16Is(value);
    m.wanted := Some(m.data[..m.len]);
    assert m.data[..m.len] == w[..at] + [value / 256 % 256, value % 256] + w[at + 2..];
  }

  lemma LengthFilledIn(body: bytes, head: bytes, blank: bytes, rdata: bytes, size: bytes)
    requires |blank| == 2 && |size| == 2
    ensures var w, at := body + head + blank + rdata, |body + head|;
            w[..at] + size + w[at + 2..] == body + (head + size + rdata)
  {
  }

  lemma CountIs(s: bytes)
    requires |s| >= 12
    ensures CountAt(s, 3) == s[10] as int * 256 + s[11] as int
  {
    var c := s[10..12];
    assert c[..1] == [s[10]] && c[..1][..0] == [];
    assert BeValue(c[..1]) == s[10] as int;
  }

  lemma SignatureOctets(key: bytes, now: nat, mac: Mac, id: nat)
    requires LabelsFit(Labels(key))
    ensures RecordOctets(TsigRecord(key, now, mac, id)) ==
            SignatureHead(key).value + U16(|TsigRdata(now, mac, id)|) + TsigRdata(now, mac, id)
  {
    hide U16, U32, Labels, NameOctets, TsigRdata;
  }

  lemma HeaderOfSigned(body: bytes, more: bytes)
    requires |body| >= 12
    ensures CountAt(body + more, 3) == CountAt(body, 3)
  {
    assert (body + more)[10..12] == body[10..12];
  }

  /** Appends the signature record with RDLENGTH zero, noting where that field and the record body are. */
  method AppendSignature(m: Msg, key: bytes, now: nat, mac: Mac, id: nat) returns (rdlengthAt: nat, rdataAt: nat)
    requires m.Valid() && !m.overflow
    modifies m, m.data
    ensures m.Valid()
    ensures m.overflow <==> !LabelsFit(Labels(key)) || |old(m.wanted).value| + |RecordOctets(TsigRecord(key, now, mac, id))| > CAPACITY
    ensures !m.overflow ==> rdlengthAt == |old(m.wanted).value + SignatureHead(key).value| && rdataAt == rdlengthAt + 2
    ensures !m.overflow ==>
              m.wanted.value == old(m.wanted).value + SignatureHead(key).value + U16(0) + TsigRdata(now, mac, id)
  {
    hide U16, Labels, LabelsFit, TsigRdata, SignatureHead, RecordOctets;
    SignatureHeadSome(key);
    if LabelsFit(Labels(key)) {
      SignatureOctets(key, now, mac, id);
    }
    PutSignatureHead(m, key);
    rdlengthAt := m.len;
    m.PutU16(0);
    rdataAt := m.len;
    PutRdata(m, now, mac, id);
  }

  /** Appends the signature over the message, fills in RDLENGTH and raises ARCOUNT. */
  method TsigSign(hmac: bytes -> Mac, m: Msg, key: bytes, now: nat, id: nat) returns (ok: bool)
    requires m.Valid() && (m.wanted.Some? ==> |m.wanted.value| >= 12)
    modifies m, m.data
    ensures m.Valid() && (ok <==> !old(m.overflow) && Sign(hmac, old(m.wanted.value), key, now, id).Some?)
    ensures ok ==> !m.overflow && m.wanted == Sign(hmac, old(m.wanted.value), key, now, id)
  {
    hide U16, Labels, Canonical, LabelsFit, TsigVariables, TsigRdata, SignatureHead, RecordOctets, CountAt;
    var vars := DigestVariables(key, now);
    if LabelsFit(Labels(key)) {
      CanonicalFits(key);
    }
    if vars.overflow || m.overflow {
      return false;
    }
    ghost var body := m.wanted.value;
    var mac := hmac(m.data[..m.len] + vars.data[..vars.len]);
    var rdlengthAt, rdataAt := AppendSignature(m, key, now, mac, id);
    if m.overflow {
      return false;
    }
    SignatureHeadSome(key);
    ghost var head, rdata := SignatureHead(key).value, TsigRdata(now, mac, id);
    var rdlength := m.len - rdataAt;
    PatchU16(m, rdlengthAt, rdlength);
    LengthFilledIn(body, head, U16(0), rdata, U16(rdlength));
    SignatureOctets(key, now, mac, id);
    assert m.wanted.value == body + RecordOctets(TsigRecord(key, now, mac, id));
    RaiseCount(m, body, RecordOctets(TsigRecord(key, now, mac, id)));
    return true;
  }

  method RaiseCount(m: Msg, ghost body: bytes, ghost more: bytes)
    requires m.Valid() && !m.overflow && m.wanted.value == body + more && |body| >= 12
    modifies m`wanted, m.data
    ensures m.Valid() && !m.overflow && m.wanted.value == WithArcount(body + more, CountAt(body, 3) + 1)
  {
    hide U16, CountAt;
    CountIs(m.wanted.value);
    HeaderOfSigned(body, more);
    assert m.data[..m.len][10] == m.data[10] && m.data[..m.len][11] == m.data[11];
    var arcount := m.data[10] as int * 256 + m.data[11] as int + 1;
    PatchU16(m, 10, arcount);
  }

  lemma SignatureHeadSome(key: bytes)
    ensures SignatureHead(key).Some? <==> LabelsFit(Labels(key))
  {
  }

  // ---------------------------------------------------------------- building the messages

  method PutHeader(m: Msg, id: nat, flags: nat, zones: nat, prerequisites: nat, updates: nat)
    requires m.Valid() && m.wanted == Some([])
    modifies m, m.data
    ensures m.Valid() && m.wanted == Some(Header(id, flags, zones, prerequisites, updates))
  {
    hide U16;
    m.PutU16(id);
    m.PutU16(flags);
    m.PutU16(zones);
    m.PutU16(prerequisites);
    m.PutU16(updates);
    m.PutU16(0);
    assert [] + U16(id) == U16(id);
  }

  method PutQuestion(m: Msg, name: bytes, qtype: nat, qclass: nat)
    requires m.Valid()
    modifies m, m.data
    ensures m.Valid()
    ensures m.wanted == Both(old(m.wanted),
                             if LabelsFit(Labels(name)) then Some(QuestionOctets(Question(Labels(name), qtype, qclass))) else None)
  {
    hide U16, Labels, LabelsFit, NameOctets, Msg.Valid;
    ghost var before := m.wanted;
    m.PutName(name);
    m.PutU16(qtype);
    m.PutU16(qclass);
    if before.Some? && LabelsFit(Labels(name)) {
      assert m.wanted.value == before.value + QuestionOctets(Question(Labels(name), qtype, qclass));
    }
  }

  /** The owner and the fixed fields of a record whose body is `size` octets. */
  method PutRecordHead(m: Msg, name: bytes, rtype: nat, rclass: nat, ttl: nat, size: nat)
    requires m.Valid()
    modifies m, m.data
    ensures m.Valid()
    ensures m.wanted == Both(old(m.wanted),
                             if LabelsFit(Labels(name)) then
                               Some(NameOctets(Labels(name)) + U16(rtype) + U16(rclass) + U32(ttl) + U16(size))
                             else None)
  {
    hide U16, U32, Labels, LabelsFit, NameOctets, Msg.Valid;
    ghost var before := m.wanted;
    m.PutName(name);
    m.PutU16(rtype);
    m.PutU16(rclass);
    m.PutU32(ttl);
    m.PutU16(size);
    if before.Some? && LabelsFit(Labels(name)) {
      assert m.wanted.value == before.value + (NameOctets(Labels(name)) + U16(rtype) + U16(rclass) + U32(ttl) + U16(size));
    }
  }

  function RecordWanted(r: Record): Option<bytes> { if LabelsFit(r.name) then Some(RecordOctets(r)) else None }

  method PutDelete(m: Msg, name: bytes)
    requires m.Valid()
    modifies m, m.data
    ensures m.Valid() && m.wanted == Both(old(m.wanted), RecordWanted(DeleteRecord(name)))
  {
    hide U16, U32, Labels, LabelsFit, NameOctets, Msg.Valid;
    PutRecordHead(m, name, TYPE_TXT, CLASS_ANY, 0, 0);
    if LabelsFit(Labels(name)) {
      assert RecordOctets(DeleteRecord(name)) ==
             NameOctets(Labels(name)) + U16(TYPE_TXT) + U16(CLASS_ANY) + U32(0) + U16(0);
    }
  }

  method PutAdd(m: Msg, name: bytes, value: bytes, ttl: int32)
    requires m.Valid() && |value| <= 255
    modifies m, m.data
    ensures m.Valid() && m.wanted == Both(old(m.wanted), RecordWanted(AddRecord(name, value, ttl)))
  {
    hide U16, U32, Labels, LabelsFit, NameOctets, RecordOctets, Msg.Valid;
    ghost var before := m.wanted;
    PutRecordHead(m, name, TYPE_TXT, CLASS_IN, if ttl > 0 then ttl else DEFAULT_TTL, |value| + 1);
    m.PutU8(|value|);
    m.PutBytes(value);
    assert [|value| % 256] == [|value|];
    if before.Some? && LabelsFit(Labels(name)) {
      AddOctets(before.value, name, value, ttl);
    }
  }

  lemma AddOctets(before: bytes, name: bytes, value: bytes, ttl: int32)
    requires LabelsFit(Labels(name)) && |value| <= 255
    ensures before + (NameOctets(Labels(name)) + U16(TYPE_TXT) + U16(CLASS_IN) + U32(Ttl(ttl)) + U16(|value| + 1)) + [|value|] + value ==
            before + RecordOctets(AddRecord(name, value, ttl))
  {
    hide U16, U32, Labels, LabelsFit, NameOctets;
    var head := NameOctets(Labels(name)) + U16(TYPE_TXT) + U16(CLASS_IN) + U32(Ttl(ttl)) + U16(|value| + 1);
    assert RecordOctets(AddRecord(name, value, ttl)) == head + ([|value|] + value);
  }

  lemma ChangesOctets(name: bytes, value: Option<bytes>, ttl: int32)
    requires LabelsFit(Labels(name)) && ValueFits(value)
    ensures RecordsOctets(Changes(name, value, ttl)) ==
            RecordOctets(DeleteRecord(name))
            + if value.Some? then RecordOctets(AddRecord(name, value.value, ttl)) else []
  {
    hide RecordOctets, Labels;
    var rs := Changes(name, value, ttl);
    assert rs[..1] == [DeleteRecord(name)] && rs[..1][..0] == [];
    assert RecordsOctets(rs[..1]) == [] + RecordOctets(DeleteRecord(name));
  }

  function UpdateWanted(id: nat, zone: bytes, name: bytes, value: Option<bytes>, ttl: int32): Option<bytes>
    requires ValueFits(value)
  {
    if LabelsFit(Labels(zone)) && LabelsFit(Labels(name)) then Some(UpdateBody(id, zone, name, value, ttl)) else None
  }

  /** The zone, the deletion and the addition; a value too long for a character-string is refused on the way. */
  method PutUpdate(m: Msg, id: uint16, zone: bytes, name: bytes, value: Option<bytes>, ttl: int32) returns (tooLong: bool)
    requires m.Valid() && m.wanted == Some([])
    modifies m, m.data
    ensures m.Valid() && tooLong == !ValueFits(value)
    ensures !tooLong ==> m.wanted == UpdateWanted(id, zone, name, value, ttl)
  {
    hide U16, U32, Labels, LabelsFit, QuestionOctets, RecordOctets, RecordsOctets, Header, Msg.Valid;
    PutHeader(m, id, FLAGS_UPDATE, 1, 0, if value.Some? then 2 else 1);
    PutQuestion(m, zone, TYPE_SOA, CLASS_IN);
    PutDelete(m, name);
    if value.Some? {
      if |value.value| > 255 {
        return true;
      }
      PutAdd(m, name, value.value, ttl);
    }
    if LabelsFit(Labels(zone)) && LabelsFit(Labels(name)) {
      ChangesOctets(name, value, ttl);
      assert m.wanted.value == UpdateBody(id, zone, name, value, ttl);
    }
    return false;
  }

  /** The update message, or why it was not sent. */
  method UpdateTxt(hmac: bytes -> Mac, id: uint16, zone: bytes, name: bytes, value: Option<bytes>, ttl: int32,
                   key: bytes, now: nat) returns (r: Result<bytes, Refusal>)
    ensures r == Update(hmac, id, zone, name, value, ttl, key, now)
  {
    hide Labels, LabelsFit, UpdateBody, Sign;
    var m := new Msg();
    var tooLong := PutUpdate(m, id, zone, name, value, ttl);
    if tooLong {
      return Err(ValueTooLong);
    }
    if m.overflow {
      return Err(TooLarge);
    }
    var ok := TsigSign(hmac, m, key, now, id);
    if !ok {
      return Err(NotSigned);
    }
    return Ok(m.data[..m.len]);
  }

  /** The query message, or why it was not sent. */
  method QueryTxt(hmac: bytes -> Mac, id: uint16, name: bytes, key: bytes, now: nat) returns (r: Result<bytes, Refusal>)
    ensures r == Query(hmac, id, name, key, now)
  {
    hide U16, U32, Labels, LabelsFit, QuestionOctets, Header, Sign;
    var m := new Msg();
    PutHeader(m, id, FLAGS_QUERY, 1, 0, 0);
    PutQuestion(m, name, TYPE_TXT, CLASS_IN);
    if m.overflow {
      return Err(TooLarge);
    }
    var ok := TsigSign(hmac, m, key, now, id);
    if !ok {
      return Err(NotSigned);
    }
    return Ok(m.data[..m.len]);
  }
}
