/** Reading the answer to a query: the walk over whatever octets the server sent, and what it finds in a proper reply. */
module DnsReply {
  import opened Bytes
  import opened DnsWire
  import opened Outcome

  datatype Answer = Truncated | Refused(rcode: nat) | NoRecord | Found(value: bytes)

  // ---------------------------------------------------------------- what the walk computes

  /** Past a name: after its zero octet, or after a pointer. */
  function SkipName(p: bytes, at: nat): nat
    decreases |p| - at
  {
    if at >= |p| || p[at] == 0 then at + 1
    else if p[at] >= 192 then at + 2
    else SkipName(p, at + p[at] + 1)
  }

  function SkipQuestions(p: bytes, at: nat, n: nat): nat
    decreases n
  {
    if n == 0 || at >= |p| then at else SkipQuestions(p, SkipName(p, at) + 4, n - 1)
  }

  datatype Fields = Fields(rtype: nat, body: nat, rdlength: nat)

  /** The record at `at`, unless the octets end before it does. */
  function AnswerAt(p: bytes, at: nat): (r: Option<Fields>)
    ensures r.Some? ==> r.value.body + r.value.rdlength <= |p|
  {
    if at + 10 > |p| then None
    else
      var after := SkipName(p, at);
      if after + 10 > |p| then None
      else
        var fields := Fields(BeValue(p[after..after + 2]), after + 10, BeValue(p[after + 8..after + 10]));
        if fields.body + fields.rdlength > |p| then None else Some(fields)
  }

  /** The text of a record, if it is a TXT record whose first character-string is whole and fits. */
  function TextOf(p: bytes, f: Fields, room: nat): Option<bytes>
    requires f.body + f.rdlength <= |p|
  {
    if f.rtype == TYPE_TXT && f.rdlength >= 1 && p[f.body] as int + 1 <= f.rdlength && p[f.body] < room then
      Some(p[f.body + 1..f.body + 1 + p[f.body]])
    else None
  }

  /** The first text among the next `n` answers that fits a buffer of `room` octets with its terminator. */
  function FirstText(p: bytes, at: nat, n: nat, room: nat): Answer
    decreases n
  {
    if n == 0 then NoRecord
    else
      match AnswerAt(p, at)
      case None => NoRecord
      case Some(f) =>
        match TextOf(p, f, room)
        case Some(text) => Found(text)
        case None => FirstText(p, f.body + f.rdlength, n - 1, room)
  }

  function Read(p: bytes, room: nat): Answer
  {
    if |p| < 12 then Truncated
    else if p[3] % 16 == 3 then NoRecord
    else if p[3] % 16 != 0 then Refused(p[3] % 16)
    else if CountAt(p, 1) == 0 then NoRecord
    else FirstText(p, SkipQuestions(p, 12, CountAt(p, 0)), CountAt(p, 1), room)
  }

  // ---------------------------------------------------------------- the walk

  /** Steps over the labels of a name; reads nothing at or past the end. */
  method WalkName(reply: array<byte>, replyLen: nat, start: nat) returns (at: nat)
    requires replyLen <= reply.Length
    ensures at == SkipName(reply[..replyLen], start)
  {
    at := start;
    while at < replyLen && reply[at] != 0
      invariant SkipName(reply[..replyLen], at) == SkipName(reply[..replyLen], start)
      decreases replyLen - at
    {
      if reply[at] >= 192 {
        return at + 2;
      }
      at := at + reply[at] as int + 1;
    }
    return at + 1;
  }

  method WalkQuestions(reply: array<byte>, replyLen: nat, qdcount: nat) returns (at: nat)
    requires replyLen <= reply.Length
    ensures at == SkipQuestions(reply[..replyLen], 12, qdcount)
  {
    hide SkipName;
    ghost var p := reply[..replyLen];
    at := 12;
    var i := 0;
    while i < qdcount && at < replyLen
      invariant i <= qdcount && SkipQuestions(p, at, qdcount - i) == SkipQuestions(p, 12, qdcount)
      decreases qdcount - i
    {
      at := WalkName(reply, replyLen, at);
      at := at + 4;
      i := i + 1;
    }
  }

  /** The owner name and the fixed fields of one answer. */
  method WalkAnswer(reply: array<byte>, replyLen: nat, start: nat) returns (r: Option<Fields>)
    requires replyLen <= reply.Length
    ensures r == AnswerAt(reply[..replyLen], start)
  {
    hide SkipName, BeValue;
    ghost var p := reply[..replyLen];
    if start + 10 > replyLen {
      return None;
    }
    var at := WalkName(reply, replyLen, start);
    if at + 10 > replyLen {
      return None;
    }
    PairValue(p[at..at + 2]);
    PairValue(p[at + 8..at + 10]);
    var rtype := reply[at] as int * 256 + reply[at + 1] as int;
    var rdlength := reply[at + 8] as int * 256 + reply[at + 9] as int;
    at := at + 10;
    if at + rdlength > replyLen {
      return None;
    }
    return Some(Fields(rtype, at, rdlength));
  }

  lemma SliceOfArray(reply: array<byte>, n: nat, a: nat, b: nat)
    requires a <= b <= n <= reply.Length
    ensures reply[..n][a..b] == reply[a..b]
  {
    var x, y := reply[..n][a..b], reply[a..b];
    assert |x| == |y| && forall k :: 0 <= k < b - a ==> x[k] == reply[a + k] && y[k] == reply[a + k];
  }

  method WalkAnswers(reply: array<byte>, replyLen: nat, start: nat, ancount: nat, room: nat) returns (answer: Answer)
    requires replyLen <= reply.Length
    ensures answer == FirstText(reply[..replyLen], start, ancount, room)
  {
    hide AnswerAt;
    ghost var p := reply[..replyLen];
    var at: nat := start;
    var i := 0;
    while i < ancount
      invariant i <= ancount && FirstText(p, at, ancount - i, room) == FirstText(p, start, ancount, room)
      decreases ancount - i
    {
      var fields := WalkAnswer(reply, replyLen, at);
      if fields.None? {
        break;
      }
      var Fields(rtype, body, rdlength) := fields.value;
      if rtype == TYPE_TXT && rdlength >= 1 {
        var segment := reply[body] as int;
        if segment + 1 <= rdlength && segment < room {
          SliceOfArray(reply, replyLen, body + 1, body + 1 + segment);
          return Found(reply[body + 1..body + 1 + segment]);
        }
      }
      at := body + rdlength;
      i := i + 1;
    }
    return NoRecord;
  }

  /** The whole reading of a reply of `replyLen` octets, with room for `room` octets of text. */
  method ReadReply(reply: array<byte>, replyLen: nat, room: nat) returns (answer: Answer)
    requires replyLen <= reply.Length
    ensures answer == Read(reply[..replyLen], room)
  {
    hide BeValue, SkipQuestions, FirstText;
    ghost var p := reply[..replyLen];
    if replyLen < 12 {
      return Truncated;
    }
    var rcode := reply[3] % 16;
    if rcode == 3 {
      return NoRecord;
    }
    if rcode != 0 {
      return Refused(rcode);
    }
    PairValue(p[6..8]);
    var ancount := reply[6] as int * 256 + reply[7] as int;
    if ancount == 0 {
      return NoRecord;
    }
    PairValue(p[4..6]);
    var qdcount := reply[4] as int * 256 + reply[5] as int;
    var at := WalkQuestions(reply, replyLen, qdcount);
    answer := WalkAnswers(reply, replyLen, at, ancount, room);
  }

  // ---------------------------------------------------------------- proper replies

  /** A name on the wire ends in a zero octet or in a pointer to an earlier name (section 4.1.4 of RFC 1035). */
  datatype WireName = WireName(labels: seq<bytes>, pointer: Option<nat>)

  datatype WireQuestion = WireQuestion(name: WireName, qtype: nat, qclass: nat)

  datatype WireRecord = WireRecord(name: WireName, rtype: nat, rclass: nat, ttl: nat, rdata: bytes)

  predicate ProperName(n: WireName) { NameFits(n.labels) && (n.pointer.Some? ==> n.pointer.value < 0x4000) }

  predicate ProperRecord(r: WireRecord) { ProperName(r.name) && r.rtype < 0x10000 && |r.rdata| < 0x10000 }

  function NameEnd(n: WireName): bytes
    requires ProperName(n)
  {
    match n.pointer
    case None => [0]
    case Some(k) => [192 + k / 256, k % 256]
  }

  function WireNameOctets(n: WireName): bytes
    requires ProperName(n)
  {
    LabelOctets(n.labels) + NameEnd(n)
  }

  function WireQuestionOctets(q: WireQuestion): bytes
    requires ProperName(q.name)
  {
    WireNameOctets(q.name) + U16(q.qtype) + U16(q.qclass)
  }

  function WireRecordOctets(r: WireRecord): bytes
    requires ProperRecord(r)
  {
    WireNameOctets(r.name) + U16(r.rtype) + U16(r.rclass) + U32(r.ttl) + U16(|r.rdata|) + r.rdata
  }

  function QuestionsOctets(qs: seq<WireQuestion>): bytes
    requires forall i :: 0 <= i < |qs| ==> ProperName(qs[i].name)
  {
    if qs == [] then [] else WireQuestionOctets(qs[0]) + QuestionsOctets(qs[1..])
  }

  function AnswersOctets(rs: seq<WireRecord>): bytes
    requires forall i :: 0 <= i < |rs| ==> ProperRecord(rs[i])
  {
    if rs == [] then [] else WireRecordOctets(rs[0]) + AnswersOctets(rs[1..])
  }

  /** The first character-string of a record body, if the body holds one. */
  function FirstString(rdata: bytes): Option<bytes>
  {
    if rdata == [] || rdata[0] as int + 1 > |rdata| then None else Some(rdata[1..1 + rdata[0]])
  }

  predicate Fits(r: WireRecord, room: nat)
  {
    r.rtype == TYPE_TXT && FirstString(r.rdata).Some? && |FirstString(r.rdata).value| < room
  }

  /** The first character-string of the first TXT record that fits. */
  function FirstFitting(rs: seq<WireRecord>, room: nat): Answer
  {
    if rs == [] then NoRecord
    else if Fits(rs[0], room) then Found(FirstString(rs[0].rdata).value)
    else FirstFitting(rs[1..], room)
  }

  lemma WireNameStep(n: WireName)
    requires ProperName(n) && n.labels != []
    ensures var l, rest := n.labels[0], n.(labels := n.labels[1..]);
            && 1 <= |l| <= 63 && ProperName(rest)
            && WireNameOctets(n) == ([|l|] + l) + WireNameOctets(rest)
  {
    assert n.labels[0] in n.labels;
  }

  lemma FirstOctet(p: bytes, at: nat, s: bytes)
    requires At(p, at, s) && s != []
    ensures at < |p| && p[at] == s[0]
  {
    assert p[at] == p[at..at + |s|][0];
  }

  lemma {:induction false} NameIsSkipped(p: bytes, at: nat, n: WireName)
    requires ProperName(n) && At(p, at, WireNameOctets(n))
    ensures SkipName(p, at) == at + |WireNameOctets(n)|
    decreases |n.labels|
  {
    hide At;
    FirstOctet(p, at, WireNameOctets(n));
    if n.labels == [] {
    } else {
      WireNameStep(n);
      hide WireNameOctets;
      var l, rest := n.labels[0], n.(labels := n.labels[1..]);
      AtConcat(p, at, [|l|] + l, WireNameOctets(rest));
      NameIsSkipped(p, at + 1 + |l|, rest);
    }
  }

  lemma {:induction false} QuestionsAreSkipped(p: bytes, at: nat, qs: seq<WireQuestion>)
    requires forall i :: 0 <= i < |qs| ==> ProperName(qs[i].name)
    requires At(p, at, QuestionsOctets(qs))
    ensures SkipQuestions(p, at, |qs|) == at + |QuestionsOctets(qs)|
    decreases |qs|
  {
    hide WireQuestionOctets, ProperName, SkipName, At;
    if qs != [] {
      var head := WireQuestionOctets(qs[0]);
      AtConcat(p, at, head, QuestionsOctets(qs[1..]));
      QuestionIsSkipped(p, at, qs[0]);
      QuestionsAreSkipped(p, at + |head|, qs[1..]);
    }
  }

  lemma QuestionIsSkipped(p: bytes, at: nat, q: WireQuestion)
    requires ProperName(q.name) && At(p, at, WireQuestionOctets(q))
    ensures at < |p| && SkipName(p, at) + 4 == at + |WireQuestionOctets(q)|
  {
    hide SkipName, WireNameOctets, ProperName;
    var name, rest := WireNameOctets(q.name), U16(q.qtype) + U16(q.qclass);
    assert WireQuestionOctets(q) == name + rest;
    AtConcat(p, at, name, rest);
    NameIsSkipped(p, at, q.name);
  }

  lemma SliceOfSlice(p: bytes, i: nat, n: nat, a: nat, b: nat)
    requires a <= b <= n && i + n <= |p|
    ensures p[i..i + n][a..b] == p[i + a..i + b]
  {
    var x, y := p[i..i + n][a..b], p[i + a..i + b];
    forall k | 0 <= k < b - a
      ensures x[k] == y[k]
    {
      assert x[k] == p[i..i + n][a + k] == p[i + (a + k)];
    }
  }

  lemma {:induction false} AnswerIsAt(p: bytes, at: nat, r: WireRecord)
    requires ProperRecord(r) && At(p, at, WireRecordOctets(r))
    ensures var body := at + |WireRecordOctets(r)| - |r.rdata|;
            AnswerAt(p, at) == Some(Fields(r.rtype, body, |r.rdata|)) && p[body..body + |r.rdata|] == r.rdata
  {
    hide SkipName, WireNameOctets, U16, U32, BeValue;
    var name := WireNameOctets(r.name);
    var fields := U16(r.rtype) + U16(r.rclass) + U32(r.ttl) + U16(|r.rdata|) + r.rdata;
    assert WireRecordOctets(r) == name + fields;
    AtConcat(p, at, name, fields);
    NameIsSkipped(p, at, r.name);
    var after := at + |name|;
    FixedFields(U16(r.rtype), U16(r.rclass), U32(r.ttl), U16(|r.rdata|), r.rdata, []);
    assert fields + [] == fields;
    FieldsAt(p, after, fields, |r.rdata|);
    U16ReadsBack(r.rtype);
    U16ReadsBack(|r.rdata|);
  }

  lemma FieldsAt(p: bytes, after: nat, fields: bytes, n: nat)
    requires At(p, after, fields) && |fields| == 10 + n
    ensures p[after..after + 2] == fields[..2] && p[after + 8..after + 10] == fields[8..10]
    ensures p[after + 10..after + 10 + n] == fields[10..]
  {
    SliceOfSlice(p, after, |fields|, 0, 2);
    SliceOfSlice(p, after, |fields|, 8, 10);
    SliceOfSlice(p, after, |fields|, 10, 10 + n);
  }

  /** One answer: its fields are found where they are, and its text is taken just when it fits. */
  lemma {:induction false} AnswerIsRead(p: bytes, at: nat, r: WireRecord, n: nat, room: nat)
    requires ProperRecord(r) && At(p, at, WireRecordOctets(r)) && n > 0
    ensures FirstText(p, at, n, room) ==
            if Fits(r, room) then Found(FirstString(r.rdata).value)
            else FirstText(p, at + |WireRecordOctets(r)|, n - 1, room)
  {
    hide AnswerAt, WireRecordOctets, ProperRecord;
    AnswerIsAt(p, at, r);
    var body := at + |WireRecordOctets(r)| - |r.rdata|;
    if |r.rdata| >= 1 {
      assert p[body] == p[body..body + |r.rdata|][0];
      if r.rdata[0] as int + 1 <= |r.rdata| {
        SliceOfSlice(p, body, |r.rdata|, 1, 1 + r.rdata[0] as int);
      }
    }
  }

  lemma {:induction false} AnswersAreRead(p: bytes, at: nat, rs: seq<WireRecord>, room: nat)
    requires forall i :: 0 <= i < |rs| ==> ProperRecord(rs[i])
    requires At(p, at, AnswersOctets(rs))
    ensures FirstText(p, at, |rs|, room) == FirstFitting(rs, room)
    decreases |rs|
  {
    hide FirstText, WireRecordOctets, Fits, FirstString;
    if rs == [] {
      NoAnswers(p, at, room);
    } else {
      AtConcat(p, at, WireRecordOctets(rs[0]), AnswersOctets(rs[1..]));
      AnswerIsRead(p, at, rs[0], |rs|, room);
      AnswersAreRead(p, at + |WireRecordOctets(rs[0])|, rs[1..], room);
    }
  }

  lemma NoAnswers(p: bytes, at: nat, room: nat)
    ensures FirstText(p, at, 0, room) == NoRecord
  {
  }

  /**
   * A proper reply without an error, whatever else follows its answers, yields the first character-string of the
   * first TXT answer that fits.
   */
  lemma {:induction false} ProperReplyIsRead(header: bytes, qs: seq<WireQuestion>, rs: seq<WireRecord>, more: bytes, room: nat)
    requires forall i :: 0 <= i < |qs| ==> ProperName(qs[i].name)
    requires forall i :: 0 <= i < |rs| ==> ProperRecord(rs[i])
    requires |header| == 12 && header[3] % 16 == 0 && CountAt(header, 0) == |qs| && CountAt(header, 1) == |rs|
    ensures Read(header + QuestionsOctets(qs) + AnswersOctets(rs) + more, room) == FirstFitting(rs, room)
  {
    hide SkipQuestions, FirstText, BeValue, QuestionsOctets, AnswersOctets;
    var q, a := QuestionsOctets(qs), AnswersOctets(rs);
    var p := header + q + a + more;
    Places(header, q, a, more);
    QuestionsAreSkipped(p, 12, qs);
    AnswersAreRead(p, 12 + |q|, rs, room);
    if |rs| == 0 {
      NoAnswers(p, 12 + |q|, room);
    }
  }

  lemma Places(header: bytes, q: bytes, a: bytes, more: bytes)
    requires |header| == 12
    ensures var p := header + q + a + more;
            p[3] == header[3] && p[4..6] == header[4..6] && p[6..8] == header[6..8] && At(p, 12, q) && At(p, 12 + |q|, a)
  {
  }
}
