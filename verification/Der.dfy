/** Compact signatures rewritten in DER, and a reader of the part of X.690 that applies. */
module Der {
  import opened Bytes
  import opened Outcome

  const INTEGER: byte := 2
  const SEQUENCE: byte := 48

  // ---------------------------------------------------------------- writing

  /** Lengths below 128 take one octet, others a count of octets and the octets. */
  function Length(n: nat): bytes
    requires |Minimal(n)| < 128
  {
    if n < 128 then [n] else [128 + |Minimal(n)|] + Minimal(n)
  }

  method LengthLoop(n: nat) returns (r: bytes)
    requires |Minimal(n)| < 128
    ensures r == Length(n)
  {
    if n < 0x80 {
      return [n];
    }
    var b := OctetsLoop(n);
    return [128 + |b|] + b;
  }

  method OctetsLoop(n: nat) returns (b: bytes)
    ensures b == Minimal(n)
  {
    hide Minimal, BeValue;
    b := [];
    var x := n;
    NothingBehind(Minimal(n));
    while x != 0
      invariant Minimal(n) == Minimal(x) + b
    {
      MinimalLast(x, b);
      b := [x % 256] + b;
      x := x / 256;
    }
    assert Minimal(0) == [];
  }

  lemma NothingBehind(b: bytes)
    ensures b + [] == b
  {
  }

  lemma MinimalLast(n: nat, b: bytes)
    requires n > 0
    ensures Minimal(n) + b == Minimal(n / 256) + ([n % 256] + b)
  {
    hide BeValue;
    var front, last := Minimal(n / 256), [n % 256];
    assert Minimal(n) == front + last;
    hide Minimal;
    Regroup(front, last, b);
  }

  lemma Regroup(a: bytes, b: bytes, c: bytes)
    ensures a + b + c == a + (b + c)
  {
  }

  function WithoutZeros(v: bytes): bytes { if v != [] && v[0] == 0 then WithoutZeros(v[1..]) else v }

  /** The content of an INTEGER: no needless zero octets, and none that would make it negative. */
  function Content(v: bytes): bytes
  {
    var s := WithoutZeros(v);
    if s == [] then [0] else if s[0] >= 128 then [0] + s else s
  }

  lemma {:induction false} ContentSize(v: bytes)
    ensures 1 <= |Content(v)| <= |v| + 1
  {
    ZerosGone(v);
  }

  lemma {:induction false} ZerosGone(v: bytes)
    ensures |WithoutZeros(v)| <= |v| && BeValue(WithoutZeros(v)) == BeValue(v)
    ensures WithoutZeros(v) != [] ==> WithoutZeros(v)[0] != 0
  {
    if v != [] && v[0] == 0 {
      ZerosGone(v[1..]);
      LeadingZero(v[1..]);
      assert v == [0] + v[1..];
    }
  }

  lemma {:induction false} LeadingZero(v: bytes)
    ensures BeValue([0] + v) == BeValue(v)
  {
    if v == [] {
      assert ([0] + v)[..0] == [];
    } else {
      assert ([0] + v)[..|v|] == [0] + v[..|v| - 1];
      LeadingZero(v[..|v| - 1]);
    }
  }

  lemma SmallLength(n: nat)
    requires n < 128
    ensures |Minimal(n)| <= 1
  {
    assert Minimal(n / 256) == [];
  }

  function Integer(v: bytes): bytes
    requires |v| < 127
  {
    ContentSize(v);
    SmallLength(|Content(v)|);
    [INTEGER] + Length(|Content(v)|) + Content(v)
  }

  lemma IntegerSize(v: bytes)
    requires |v| < 127
    ensures 3 <= |Integer(v)| <= |v| + 3
  {
    ContentSize(v);
  }

  /** The two halves of a compact signature as a SEQUENCE of two INTEGERs. */
  function Ecdsa(sig: bytes): bytes
    requires |sig| == 64
  {
    IntegerSize(sig[..32]);
    IntegerSize(sig[32..]);
    var content := Integer(sig[..32]) + Integer(sig[32..]);
    SmallLength(|content|);
    [SEQUENCE] + Length(|content|) + content
  }

  method IntegerLoop(v: bytes) returns (r: bytes)
    requires |v| < 127
    ensures r == Integer(v)
  {
    hide Length, Minimal, BeValue;
    var s := 0;
    assert v[0..] == v;
    while s < |v| && v[s] == 0
      invariant s <= |v| && WithoutZeros(v) == WithoutZeros(v[s..])
    {
      assert v[s..][1..] == v[s + 1..];
      s := s + 1;
    }
    var body: bytes := [];
    if s == |v| {
      body := body + [0];
    } else {
      if v[s] >= 128 {
        body := body + [0];
      }
      body := body + v[s..];
    }
    assert body == Content(v);
    ContentSize(v);
    SmallLength(|body|);
    var length := LengthLoop(|body|);
    return [INTEGER] + length + body;
  }

  method EcdsaLoop(sig: bytes) returns (r: bytes)
    requires |sig| == 64
    ensures r == Ecdsa(sig)
  {
    var first := IntegerLoop(sig[..32]);
    var second := IntegerLoop(sig[32..]);
    IntegerSize(sig[..32]);
    IntegerSize(sig[32..]);
    SmallLength(|first + second|);
    var length := LengthLoop(|first + second|);
    return [SEQUENCE] + length + (first + second);
  }

  // ---------------------------------------------------------------- reading

  function ReadLength(s: bytes): Option<(nat, bytes)>
  {
    if s == [] then None
    else if s[0] < 128 then Some((s[0], s[1..]))
    else
      var k: nat := s[0] - 128;
      if k == 0 || |s| < 1 + k then None else Some((BeValue(s[1..1 + k]), s[1 + k..]))
  }

  /** The content of the value with this tag at the front, and what follows it. */
  function ReadValue(tag: byte, s: bytes): Option<(bytes, bytes)>
  {
    if s == [] || s[0] != tag then None
    else
      match ReadLength(s[1..])
      case None => None
      case Some((n, rest)) => if |rest| < n then None else Some((rest[..n], rest[n..]))
  }

  /** An INTEGER that is not negative and not longer than it has to be. */
  predicate Proper(c: bytes) { c != [] && c[0] < 128 && (|c| > 1 && c[0] == 0 ==> c[1] >= 128) }

  function ReadNatural(s: bytes): Option<(nat, bytes)>
  {
    match ReadValue(INTEGER, s)
    case None => None
    case Some((c, rest)) => if Proper(c) then Some((BeValue(c), rest)) else None
  }

  /** A SEQUENCE of two such INTEGERs and nothing else. */
  function ReadSignature(s: bytes): Option<(nat, nat)>
  {
    match ReadValue(SEQUENCE, s)
    case None => None
    case Some((content, after)) =>
      match ReadNatural(content)
      case None => None
      case Some((r, more)) =>
        match ReadNatural(more)
        case None => None
        case Some((n, end)) => if after == [] && end == [] then Some((r, n)) else None
  }

  lemma LengthReadsBack(n: nat, t: bytes)
    requires |Minimal(n)| < 128
    ensures ReadLength(Length(n) + t) == Some((n, t))
  {
    var s := Length(n) + t;
    if n < 128 {
      assert s[1..] == t;
    } else {
      var k := |Minimal(n)|;
      assert s[1..1 + k] == Minimal(n) && s[1 + k..] == t;
    }
  }

  lemma ValueReadsBack(tag: byte, content: bytes, t: bytes)
    requires |content| < 128 && |Minimal(|content|)| < 128
    ensures ReadValue(tag, [tag] + Length(|content|) + content + t) == Some((content, t))
  {
    hide Length, ReadLength, Minimal;
    var s := [tag] + Length(|content|) + content + t;
    assert s[0] == tag && s[1..] == Length(|content|) + (content + t);
    LengthReadsBack(|content|, content + t);
    assert (content + t)[..|content|] == content && (content + t)[|content|..] == t;
  }

  lemma IntegerReadsBack(v: bytes, t: bytes)
    requires |v| < 127
    ensures ReadNatural(Integer(v) + t) == Some((BeValue(v), t))
  {
    hide ReadValue, Length;
    ContentSize(v);
    SmallLength(|Content(v)|);
    ValueReadsBack(INTEGER, Content(v), t);
    ZerosGone(v);
    LeadingZero(WithoutZeros(v));
    assert BeValue([0]) == 0 by {
      LeadingZero([]);
      assert [0] + [] == [0];
    }
  }

  /** Any compact signature is rewritten as a DER signature of the same two numbers. */
  lemma SignatureReadsBack(sig: bytes)
    requires |sig| == 64
    ensures ReadSignature(Ecdsa(sig)) == Some((BeValue(sig[..32]), BeValue(sig[32..])))
  {
    hide ReadNatural, ReadValue, Integer, Length;
    IntegerSize(sig[..32]);
    IntegerSize(sig[32..]);
    var first, second := Integer(sig[..32]), Integer(sig[32..]);
    var content := first + second;
    SmallLength(|content|);
    ValueReadsBack(SEQUENCE, content, []);
    assert Ecdsa(sig) == [SEQUENCE] + Length(|content|) + content + [];
    IntegerReadsBack(sig[..32], second);
    IntegerReadsBack(sig[32..], []);
    assert second + [] == second;
  }
}
