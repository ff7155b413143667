/** Domain names, records and messages on the wire, and a parser of section 4.1 of RFC 1035 for them. */
module DnsWire {
  import opened Bytes
  import opened Outcome

  import Division

  const DOT: byte := 46

  const TYPE_SOA := 6
  const TYPE_TXT := 16
  const TYPE_TSIG := 250
  const CLASS_IN := 1
  const CLASS_ANY := 255

  // ---------------------------------------------------------------- numbers

  function U16(v: nat): (r: bytes)
    ensures |r| == 2
  {
    BigEndian(v, 2)
  }

  function U32(v: nat): (r: bytes)
    ensures |r| == 4
  {
    BigEndian(v, 4)
  }

  /** The number without its `n` low octets, and those octets alone. */
  function Dropped(v: nat, n: nat): nat { if n == 0 then v else Dropped(v / 256, n - 1) }

  function Kept(v: nat, n: nat): nat { if n == 0 then 0 else 256 * Kept(v / 256, n - 1) + v % 256 }

  lemma {:induction false} NumberSplits(v: nat, high: nat, low: nat)
    ensures BigEndian(v, high + low) == BigEndian(Dropped(v, low), high) + BigEndian(Kept(v, low), low)
  {
    if low > 0 {
      assert BigEndian(v, high + low) == BigEndian(v / 256, high + (low - 1)) + [v % 256];
      NumberSplits(v / 256, high, low - 1);
    }
  }

  lemma {:induction false} NumberReadsBack(v: nat, width: nat)
    ensures BeValue(BigEndian(v, width)) == Kept(v, width)
  {
    if width > 0 {
      NumberReadsBack(v / 256, width - 1);
      assert BigEndian(v, width)[..width - 1] == BigEndian(v / 256, width - 1);
    }
  }

  lemma Digits32(v: nat)
    ensures Dropped(v, 4) == v / 0x1_0000_0000 && Kept(v, 4) == v % 0x1_0000_0000
  {
    var a := v / 256;
    var b := a / 256;
    var c := b / 256;
    assert Dropped(v, 4) == Dropped(a, 3) == Dropped(b, 2) == Dropped(c, 1) == c / 256;
    assert Kept(c, 1) == c % 256;
    assert Kept(b, 2) == 256 * Kept(c, 1) + b % 256;
    assert Kept(a, 3) == 256 * Kept(b, 2) + a % 256;
    assert Kept(v, 4) == 256 * Kept(a, 3) + v % 256;
  }

  lemma Digits48(v: nat)
    ensures Kept(v, 6) == v % 0x1_0000_0000_0000
  {
    var a := v / 256;
    var b := a / 256;
    Digits32(b);
    assert Kept(v, 6) == 256 * Kept(a, 5) + v % 256;
    assert Kept(a, 5) == 256 * Kept(b, 4) + a % 256;
    Split48(v, a, b);
  }

  lemma Split48(v: nat, a: nat, b: nat)
    requires a == v / 256 && b == a / 256
    ensures v % 0x1_0000_0000_0000 == 256 * (256 * (b % 0x1_0000_0000) + a % 256) + v % 256
  {
    var high := b / 0x1_0000_0000;
    var low := 256 * (256 * (b % 0x1_0000_0000) + a % 256) + v % 256;
    assert v == 0x1_0000_0000_0000 * high + low;
    Division.Unique(v, 0x1_0000_0000_0000, high, low);
  }

  lemma {:induction false} OctetsReadBack(s: bytes)
    ensures BigEndian(BeValue(s), |s|) == s
  {
    if s != [] {
      OctetsReadBack(s[..|s| - 1]);
      assert s == s[..|s| - 1] + [s[|s| - 1]];
      Division.Unique(BeValue(s), 256, BeValue(s[..|s| - 1]), s[|s| - 1]);
    }
  }

  lemma Powers()
    ensures Pow256(2) == 0x10000 && Pow256(4) == 0x1_0000_0000
  {
    assert Pow256(3) == 256 * Pow256(2);
  }

  lemma U16ReadsBack(v: nat)
    requires v < 0x10000
    ensures BeValue(U16(v)) == v
  {
    Powers();
    BigEndianValue(v, 2);
  }

  lemma U32ReadsBack(v: nat)
    requires v < 0x1_0000_0000
    ensures BeValue(U32(v)) == v
  {
    Powers();
    BigEndianValue(v, 4);
  }

  // ---------------------------------------------------------------- names

  function FirstDot(name: bytes): (n: nat)
    ensures n <= |name| && (n < |name| ==> name[n] == DOT)
    ensures forall k :: 0 <= k < n ==> name[k] != DOT
  {
    IndexOf(name, DOT)
  }

  /** The labels of a dotted name, up to the first empty one. */
  function Labels(name: bytes): (ls: seq<bytes>)
    ensures forall l <- ls :: |l| >= 1 && DOT !in l
    decreases |name|
  {
    var n := FirstDot(name);
    if n == 0 then []
    else if n == |name| then [name]
    else [name[..n]] + Labels(name[n + 1..])
  }

  /** How much of a dotted name its labels take up. */
  function Used(name: bytes): (n: nat)
    ensures n <= |name|
    decreases |name|
  {
    var n := FirstDot(name);
    if n == 0 || n == |name| || Labels(name[n + 1..]) == [] then n
    else n + 1 + Used(name[n + 1..])
  }

  function Dotted(ls: seq<bytes>): bytes
  {
    if ls == [] then [] else if |ls| == 1 then ls[0] else ls[0] + [DOT] + Dotted(ls[1..])
  }

  /** The labels joined again are the name up to its end, a final dot or an empty label. */
  lemma {:induction false} LabelsOfDotted(name: bytes)
    ensures Dotted(Labels(name)) == name[..Used(name)]
    ensures var rest := name[Used(name)..];
            rest == [] || (rest[0] == DOT && (Labels(name) == [] || |rest| == 1 || rest[1] == DOT))
    decreases |name|
  {
    var n := FirstDot(name);
    if n == 0 {
    } else if n == |name| {
      assert name[..n] == name;
    } else {
      var rest := name[n + 1..];
      LabelsOfDotted(rest);
      DottedStep(name, n);
    }
  }

  lemma {:induction false} DottedStep(name: bytes, n: nat)
    requires n == FirstDot(name) && 0 < n < |name|
    requires var rest := name[n + 1..]; Dotted(Labels(rest)) == rest[..Used(rest)]
    ensures Dotted(Labels(name)) == name[..Used(name)]
    ensures Labels(name[n + 1..]) != [] ==> name[Used(name)..] == name[n + 1..][Used(name[n + 1..])..]
    ensures Labels(name[n + 1..]) == [] ==> Used(name) == n
  {
    hide FirstDot;
    var rest := name[n + 1..];
    if Labels(rest) == [] {
      assert Labels(name) == [name[..n]];
    } else {
      assert Labels(name)[1..] == Labels(rest);
      assert name[..Used(name)] == name[..n] + [DOT] + rest[..Used(rest)];
    }
  }

  predicate LabelsFit(ls: seq<bytes>) { forall l <- ls :: |l| <= 63 }

  /** Octets of the labels, each behind its length. */
  function LabelOctets(ls: seq<bytes>): bytes
    requires LabelsFit(ls)
  {
    if ls == [] then [] else [|ls[0]|] + ls[0] + LabelOctets(ls[1..])
  }

  function NameOctets(ls: seq<bytes>): bytes
    requires LabelsFit(ls)
  {
    LabelOctets(ls) + [0]
  }

  lemma LabelOctetsStep(l: bytes, ls: seq<bytes>)
    requires LabelsFit([l] + ls)
    ensures LabelsFit(ls) && |LabelOctets([l] + ls)| == 1 + |l| + |LabelOctets(ls)|
  {
    assert ([l] + ls)[1..] == ls;
    assert forall k <- ls :: k in [l] + ls;
  }

  lemma {:induction false} LabelOctetsLength(name: bytes)
    requires LabelsFit(Labels(name))
    ensures |LabelOctets(Labels(name))| == if Labels(name) == [] then 0 else Used(name) + 1
    decreases |name|
  {
    var n := FirstDot(name);
    if n == 0 {
    } else if n == |name| {
      LabelOctetsStep(name, []);
      assert [name] + [] == [name];
    } else {
      hide FirstDot, LabelsFit, LabelOctets;
      LabelOctetsStep(name[..n], Labels(name[n + 1..]));
      LabelOctetsLength(name[n + 1..]);
    }
  }

  // ---------------------------------------------------------------- the parser

  /** An uncompressed name and what follows it. */
  function ParseName(s: bytes): (r: Option<(seq<bytes>, bytes)>)
    ensures r.Some? ==> LabelsFit(r.value.0)
    decreases |s|
  {
    if s == [] then None
    else if s[0] == 0 then Some(([], s[1..]))
    else if s[0] > 63 || |s| < 1 + s[0] then None
    else
      match ParseName(s[1 + s[0]..])
      case None => None
      case Some((ls, rest)) =>
        assert forall l <- [s[1..1 + s[0]]] + ls :: l == s[1..1 + s[0]] || l in ls;
        Some(([s[1..1 + s[0]]] + ls, rest))
  }

  datatype Question = Question(name: seq<bytes>, qtype: nat, qclass: nat)

  datatype Record = Record(name: seq<bytes>, rtype: nat, rclass: nat, ttl: nat, rdata: bytes)

  /** The four sections. In an update they are the zone, the prerequisites, the changes and the additional records. */
  datatype Sections = Sections(questions: seq<Question>, answers: seq<Record>, authority: seq<Record>, additional: seq<Record>)

  datatype Message = Message(id: nat, flags: nat, sections: Sections)

  function ParseQuestion(s: bytes): Option<(Question, bytes)>
  {
    match ParseName(s)
    case None => None
    case Some((ls, a)) =>
      if |a| < 4 then None else Some((Question(ls, BeValue(a[..2]), BeValue(a[2..4])), a[4..]))
  }

  /** The rest of a record once its name is read. */
  function ParseFields(ls: seq<bytes>, a: bytes): Option<(Record, bytes)>
  {
    if |a| < 10 then None
    else
      var rdlength := BeValue(a[8..10]);
      if |a| < 10 + rdlength then None
      else Some((Record(ls, BeValue(a[..2]), BeValue(a[2..4]), BeValue(a[4..8]), a[10..10 + rdlength]), a[10 + rdlength..]))
  }

  function ParseRecord(s: bytes): (r: Option<(Record, bytes)>)
    ensures r.Some? ==> LabelsFit(r.value.0.name)
  {
    match ParseName(s)
    case None => None
    case Some((ls, a)) => ParseFields(ls, a)
  }

  function ParseQuestions(s: bytes, n: nat): Option<(seq<Question>, bytes)>
  {
    if n == 0 then Some(([], s))
    else
      match ParseQuestions(s, n - 1)
      case None => None
      case Some((qs, a)) =>
        match ParseQuestion(a)
        case None => None
        case Some((q, rest)) => Some((qs + [q], rest))
  }

  function ParseRecords(s: bytes, n: nat): Option<(seq<Record>, bytes)>
  {
    if n == 0 then Some(([], s))
    else
      match ParseRecords(s, n - 1)
      case None => None
      case Some((rs, a)) =>
        match ParseRecord(a)
        case None => None
        case Some((r, rest)) => Some((rs + [r], rest))
  }

  /** The four counts of a header. */
  function CountAt(s: bytes, k: nat): nat
    requires |s| >= 12 && k < 4
  {
    BeValue(s[4 + 2 * k..6 + 2 * k])
  }

  function ParseSections(s: bytes, qd: nat, an: nat, ns: nat, ar: nat): Option<(Sections, bytes)>
  {
    match ParseQuestions(s, qd)
    case None => None
    case Some((questions, a)) =>
      match ParseRecords(a, an)
      case None => None
      case Some((answers, b)) =>
        match ParseRecords(b, ns)
        case None => None
        case Some((authority, c)) =>
          match ParseRecords(c, ar)
          case None => None
          case Some((additional, rest)) => Some((Sections(questions, answers, authority, additional), rest))
  }

  /** A message without the last `spare` additional records, and what follows. */
  function ParseUpTo(s: bytes, spare: nat): Option<(Message, bytes)>
  {
    if |s| < 12 || CountAt(s, 3) < spare then None
    else
      match ParseSections(s[12..], CountAt(s, 0), CountAt(s, 1), CountAt(s, 2), CountAt(s, 3) - spare)
      case None => None
      case Some((sections, rest)) => Some((Message(BeValue(s[..2]), BeValue(s[2..4]), sections), rest))
  }

  /** A whole message, with no octets left over. */
  function ParseMessage(s: bytes): Option<Message>
  {
    match ParseUpTo(s, 0)
    case None => None
    case Some((m, rest)) => if rest == [] then Some(m) else None
  }

  // ---------------------------------------------------------------- rendering

  predicate NameFits(ls: seq<bytes>) { LabelsFit(ls) && forall l <- ls :: |l| >= 1 }

  function FieldOctets(r: Record): bytes
  {
    U16(r.rtype) + U16(r.rclass) + U32(r.ttl) + U16(|r.rdata|) + r.rdata
  }

  function RecordOctets(r: Record): bytes
    requires LabelsFit(r.name)
  {
    NameOctets(r.name) + FieldOctets(r)
  }

  function QuestionOctets(q: Question): bytes
    requires LabelsFit(q.name)
  {
    NameOctets(q.name) + U16(q.qtype) + U16(q.qclass)
  }

  predicate RecordFits(r: Record)
  {
    NameFits(r.name) && r.rtype < 0x10000 && r.rclass < 0x10000 && r.ttl < 0x1_0000_0000 && |r.rdata| < 0x10000
  }

  lemma {:induction false} NameReadsBack(ls: seq<bytes>, t: bytes)
    requires NameFits(ls)
    ensures ParseName(NameOctets(ls) + t) == Some((ls, t))
  {
    var s := NameOctets(ls) + t;
    if ls == [] {
      assert s == [0] + t;
    } else {
      var n := |ls[0]|;
      assert s == [n] + ls[0] + (NameOctets(ls[1..]) + t);
      assert s[1..1 + n] == ls[0] && s[1 + n..] == NameOctets(ls[1..]) + t;
      NameReadsBack(ls[1..], t);
      assert [ls[0]] + ls[1..] == ls;
    }
  }

  lemma {:induction false} FieldsReadBack(r: Record, t: bytes)
    requires RecordFits(r)
    ensures ParseFields(r.name, FieldOctets(r) + t) == Some((r, t))
  {
    hide U16, U32, BeValue, NameFits;
    FixedFields(U16(r.rtype), U16(r.rclass), U32(r.ttl), U16(|r.rdata|), r.rdata, t);
    U16ReadsBack(r.rtype);
    U16ReadsBack(r.rclass);
    U32ReadsBack(r.ttl);
    U16ReadsBack(|r.rdata|);
  }

  lemma {:induction false} RecordReadsBack(r: Record, t: bytes)
    requires RecordFits(r)
    ensures ParseRecord(RecordOctets(r) + t) == Some((r, t))
  {
    hide ParseName, NameOctets, ParseFields, FieldOctets;
    assert RecordOctets(r) + t == NameOctets(r.name) + (FieldOctets(r) + t);
    NameReadsBack(r.name, FieldOctets(r) + t);
    FieldsReadBack(r, t);
  }

  /** Where the fields of a record lie behind its name. */
  lemma FixedFields(a: bytes, b: bytes, c: bytes, d: bytes, e: bytes, t: bytes)
    requires |a| == 2 && |b| == 2 && |c| == 4 && |d| == 2
    ensures var s := a + b + c + d + e + t;
            && s[..2] == a && s[2..4] == b && s[4..8] == c && s[8..10] == d
            && s[10..10 + |e|] == e && s[10 + |e|..] == t
  {
  }

  lemma {:induction false} QuestionReadsBack(q: Question, t: bytes)
    requires NameFits(q.name) && q.qtype < 0x10000 && q.qclass < 0x10000
    ensures ParseQuestion(QuestionOctets(q) + t) == Some((q, t))
  {
    hide U16, U32, BeValue, ParseName, NameOctets;
    var a := U16(q.qtype) + U16(q.qclass) + t;
    assert QuestionOctets(q) + t == NameOctets(q.name) + a;
    NameReadsBack(q.name, a);
    assert a[..2] == U16(q.qtype) && a[2..4] == U16(q.qclass) && a[4..] == t;
    U16ReadsBack(q.qtype);
    U16ReadsBack(q.qclass);
  }

  lemma OneQuestion(s: bytes, q: Question, rest: bytes)
    requires ParseQuestion(s) == Some((q, rest))
    ensures ParseQuestions(s, 1) == Some(([q], rest))
  {
    assert ParseQuestions(s, 0) == Some(([], s));
    assert [] + [q] == [q];
  }

  // ---------------------------------------------------------------- octets after what was parsed

  lemma {:induction false} ParseNameMore(s: bytes, t: bytes)
    requires ParseName(s).Some?
    ensures var (ls, rest) := ParseName(s).value; ParseName(s + t) == Some((ls, rest + t))
    decreases |s|
  {
    if s[0] == 0 {
      assert (s + t)[1..] == s[1..] + t;
    } else {
      var n := 1 + s[0];
      assert (s + t)[n..] == s[n..] + t && (s + t)[1..n] == s[1..n];
      ParseNameMore(s[n..], t);
    }
  }

  lemma {:induction false} ParseRecordMore(s: bytes, t: bytes)
    requires ParseRecord(s).Some?
    ensures var (r, rest) := ParseRecord(s).value; ParseRecord(s + t) == Some((r, rest + t))
  {
    hide ParseName, ParseFields;
    ParseNameMore(s, t);
    var (ls, a) := ParseName(s).value;
    ParseFieldsMore(ls, a, t);
  }

  lemma SliceMore(a: bytes, t: bytes, i: nat, j: nat)
    requires i <= j <= |a|
    ensures (a + t)[i..j] == a[i..j] && (a + t)[j..] == a[j..] + t
  {
  }

  lemma {:induction false} ParseFieldsMore(ls: seq<bytes>, a: bytes, t: bytes)
    requires ParseFields(ls, a).Some?
    ensures var (r, rest) := ParseFields(ls, a).value; ParseFields(ls, a + t) == Some((r, rest + t))
  {
    hide BeValue;
    SliceMore(a, t, 0, 2);
    SliceMore(a, t, 2, 4);
    SliceMore(a, t, 4, 8);
    SliceMore(a, t, 8, 10);
    SliceMore(a, t, 10, 10 + BeValue(a[8..10]));
  }

  lemma {:induction false} ParseQuestionMore(s: bytes, t: bytes)
    requires ParseQuestion(s).Some?
    ensures var (q, rest) := ParseQuestion(s).value; ParseQuestion(s + t) == Some((q, rest + t))
  {
    ParseNameMore(s, t);
    var a := ParseName(s).value.1;
    hide ParseName;
    var b := a + t;
    assert b[..2] == a[..2] && b[2..4] == a[2..4] && b[4..] == a[4..] + t;
  }

  lemma {:induction false} ParseQuestionsMore(s: bytes, n: nat, t: bytes)
    requires ParseQuestions(s, n).Some?
    ensures var (qs, rest) := ParseQuestions(s, n).value; ParseQuestions(s + t, n) == Some((qs, rest + t))
  {
    hide ParseQuestion;
    if n > 0 {
      ParseQuestionsMore(s, n - 1, t);
      ParseQuestionMore(ParseQuestions(s, n - 1).value.1, t);
    }
  }

  lemma {:induction false} ParseRecordsMore(s: bytes, n: nat, t: bytes)
    requires ParseRecords(s, n).Some?
    ensures var (rs, rest) := ParseRecords(s, n).value; ParseRecords(s + t, n) == Some((rs, rest + t))
  {
    hide ParseRecord;
    if n > 0 {
      ParseRecordsMore(s, n - 1, t);
      ParseRecordMore(ParseRecords(s, n - 1).value.1, t);
    }
  }

  lemma {:induction false} ParseSectionsMore(s: bytes, qd: nat, an: nat, ns: nat, ar: nat, t: bytes)
    requires ParseSections(s, qd, an, ns, ar).Some?
    ensures var (x, rest) := ParseSections(s, qd, an, ns, ar).value;
            ParseSections(s + t, qd, an, ns, ar) == Some((x, rest + t))
  {
    hide ParseQuestions, ParseRecords;
    ParseQuestionsMore(s, qd, t);
    var a := ParseQuestions(s, qd).value.1;
    ParseRecordsMore(a, an, t);
    var b := ParseRecords(a, an).value.1;
    ParseRecordsMore(b, ns, t);
    var c := ParseRecords(b, ns).value.1;
    ParseRecordsMore(c, ar, t);
  }

  /** One more additional record at the end. */
  lemma {:induction false} ParseSectionsOneMore(s: bytes, qd: nat, an: nat, ns: nat, ar: nat)
    requires ParseSections(s, qd, an, ns, ar).Some?
    ensures var (x, rest) := ParseSections(s, qd, an, ns, ar).value;
            ParseRecord(rest).Some? ==>
              var (r, end) := ParseRecord(rest).value;
              ParseSections(s, qd, an, ns, ar + 1) == Some((x.(additional := x.additional + [r]), end))
  {
    hide ParseQuestions, ParseRecord;
  }
}
