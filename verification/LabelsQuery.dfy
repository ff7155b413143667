/** The query string of a label request: splitting, decoding, and what it sets. */
module LabelsQuery {
  import opened Bytes
  import opened CText
  import opened Outcome

  import Labels

  const AMPERSAND: byte := 38
  const EQUALS: byte := 61
  const PERCENT: byte := 37
  const PLUS: byte := 43

  // ---------------------------------------------------------------- percent decoding

  /** The value of a hexadecimal digit. */
  function HexValue(c: byte): (r: Option<nat>)
    ensures r.Some? ==> r.value < 16
  {
    if 48 <= c <= 57 then Some(c - 48)
    else if 65 <= c <= 70 then Some(c - 55)
    else if 97 <= c <= 102 then Some(c - 87)
    else None
  }

  predicate Escape(s: bytes) { |s| > 2 && s[0] == PERCENT && HexValue(s[1]).Some? && HexValue(s[2]).Some? }

  /** The octet two hexadecimal digits stand for. */
  function Octet(high: byte, low: byte): byte
    requires HexValue(high).Some? && HexValue(low).Some?
  {
    16 * HexValue(high).value + HexValue(low).value
  }

  /** A plus stands for a space, a percent sign and two hexadecimal digits for an octet, all else for itself. */
  function DecodeComponent(s: bytes): bytes
    decreases |s|
  {
    if s == [] then []
    else if Escape(s) then [Octet(s[1], s[2])] + DecodeComponent(s[3..])
    else [if s[0] == PLUS then SPACE else s[0]] + DecodeComponent(s[1..])
  }

  method DecodeLoop(text: bytes) returns (out: bytes)
    ensures out == DecodeComponent(text)
  {
    hide DecodeComponent, Escape, HexValue;
    out := [];
    var i := 0;
    DecodeNothing();
    while i < |text|
      invariant i <= |text| && DecodeComponent(text) == out + DecodeComponent(text[i..])
      decreases |text| - i
    {
      ghost var rest := text[i..];
      DecodeStep(rest);
      assert |rest| > 2 ==> rest[1] == text[i + 1] && rest[2] == text[i + 2];
      if text[i] == PERCENT && i + 2 < |text| && HexValue(text[i + 1]).Some? && HexValue(text[i + 2]).Some? {
        assert rest[3..] == text[i + 3..];
        out := out + [Octet(text[i + 1], text[i + 2])];
        i := i + 3;
      } else {
        assert rest[1..] == text[i + 1..];
        out := out + [if text[i] == PLUS then SPACE else text[i]];
        i := i + 1;
      }
    }
    assert text[i..] == [];
  }

  lemma DecodeNothing()
    ensures DecodeComponent([]) == []
  {
  }

  lemma DecodeStep(s: bytes)
    requires s != []
    ensures Escape(s) <==> s[0] == PERCENT && |s| > 2 && HexValue(s[1]).Some? && HexValue(s[2]).Some?
    ensures DecodeComponent(s) ==
            if Escape(s) then [Octet(s[1], s[2])] + DecodeComponent(s[3..])
            else [if s[0] == PLUS then SPACE else s[0]] + DecodeComponent(s[1..])
  {
  }

  /** Octets that stand for themselves. */
  predicate Plain(c: byte)
  {
    48 <= c <= 57 || 65 <= c <= 90 || 97 <= c <= 122 || c == 45 || c == 46 || c == 95 || c == 126
  }

  function HexDigit(n: nat): byte
    requires n < 16
  {
    if n < 10 then 48 + n else 55 + n
  }

  function EncodeComponent(s: bytes): bytes
  {
    if s == [] then []
    else (if Plain(s[0]) then [s[0]] else [PERCENT, HexDigit(s[0] / 16), HexDigit(s[0] % 16)]) + EncodeComponent(s[1..])
  }

  lemma {:induction false} ComponentReadsBack(s: bytes)
    ensures DecodeComponent(EncodeComponent(s)) == s
    ensures forall c <- EncodeComponent(s) :: c != AMPERSAND && c != EQUALS
  {
    if s != [] {
      ComponentReadsBack(s[1..]);
      var e, rest := EncodeComponent(s), EncodeComponent(s[1..]);
      if Plain(s[0]) {
        assert e[1..] == rest;
      } else {
        assert e[3..] == rest && Escape(e);
      }
      assert [s[0]] + s[1..] == s;
    }
  }

  // ---------------------------------------------------------------- parameters

  const MAX_CURSOR := 0x7fff_ffff_ffff_ffff

  function PatternsKey(): bytes { [117, 114, 105, 80, 97, 116, 116, 101, 114, 110, 115] }

  function SourcesKey(): bytes { [115, 111, 117, 114, 99, 101, 115] }

  function LimitKey(): bytes { [108, 105, 109, 105, 116] }

  function CursorKey(): bytes { [99, 117, 114, 115, 111, 114] }

  datatype Args = Args(patterns: seq<bytes>, sources: seq<bytes>, sourcesPresent: bool, after: nat, limit: Option<int>)

  datatype BadQuery = BadLimit | BadCursor

  /** One parameter. Patterns and sources collect, limit and cursor are set anew, others are ignored. */
  function SetParameter(args: Args, key: bytes, value: bytes): Result<Args, BadQuery>
  {
    if key == PatternsKey() then Ok(args.(patterns := args.patterns + [value]))
    else if key == SourcesKey() then Ok(args.(sources := args.sources + [value], sourcesPresent := true))
    else if key == LimitKey() then
      var v := ParseInteger(value);
      if v.None? || v.value < 1 || v.value > Labels.MAX_LIMIT then Err(BadLimit) else Ok(args.(limit := v))
    else if key == CursorKey() then
      var v := ParseInteger(value);
      if v.None? || v.value < 0 || v.value > MAX_CURSOR then Err(BadCursor) else Ok(args.(after := v.value))
    else Ok(args)
  }

  /** Key and value of one piece of the query string. */
  function SplitPair(pair: bytes): (bytes, bytes)
  {
    var k := IndexOf(pair, EQUALS);
    (CString(DecodeComponent(pair[..k])), CString(DecodeComponent(if k < |pair| then pair[k + 1..] else [])))
  }

  /** Piece by piece, up to the first malformed value. */
  function ParsePairs(raw: bytes, args: Args): Result<Args, BadQuery>
    decreases |raw|
  {
    var n := IndexOf(raw, AMPERSAND);
    var (key, value) := SplitPair(raw[..n]);
    match SetParameter(args, key, value)
    case Err(e) => Err(e)
    case Ok(next) => if n < |raw| then ParsePairs(raw[n + 1..], next) else Ok(next)
  }

  function NoArgs(): Args { Args([], [], false, 0, None) }

  lemma PairStep(s: bytes, args: Args)
    ensures var n := IndexOf(s, AMPERSAND); var (key, value) := SplitPair(s[..n]);
            ParsePairs(s, args) ==
            match SetParameter(args, key, value)
            case Err(e) => Err(e)
            case Ok(next) => if n < |s| then ParsePairs(s[n + 1..], next) else Ok(next)
  {
  }

  method ParseQuery(raw: bytes) returns (r: Result<Args, BadQuery>)
    ensures r == ParsePairs(raw, NoArgs())
  {
    hide DecodeComponent, SetParameter, IndexOf, CString, ParsePairs;
    var args := NoArgs();
    assert raw[0..] == raw;
    var start := 0;
    while start <= |raw|
      invariant start <= |raw| ==> ParsePairs(raw, NoArgs()) == ParsePairs(raw[start..], args)
      invariant start > |raw| ==> ParsePairs(raw, NoArgs()) == Ok(args)
      decreases |raw| + 1 - start
    {
      var end := start + IndexOf(raw[start..], AMPERSAND);
      assert raw[start..][..end - start] == raw[start..end];
      var pair := raw[start..end];
      var k := IndexOf(pair, EQUALS);
      var key := DecodeLoop(pair[..k]);
      var value := DecodeLoop(if k < |pair| then pair[k + 1..] else []);
      PairStep(raw[start..], args);
      args :- SetParameter(args, CString(key), CString(value));
      if end < |raw| {
        assert raw[start..][end - start + 1..] == raw[end + 1..];
      }
      start := end + 1;
    }
    return Ok(args);
  }

  // ---------------------------------------------------------------- query strings as clients write them

  function Parameter(key: bytes, value: bytes): bytes { key + [EQUALS] + EncodeComponent(value) }

  function Joined(pairs: seq<bytes>): bytes
    requires pairs != []
  {
    if |pairs| == 1 then pairs[0] else pairs[0] + [AMPERSAND] + Joined(pairs[1..])
  }

  /** Pairs of a key without special octets and any value without a zero octet. */
  predicate Writable(kv: (bytes, bytes))
  {
    (forall k :: 0 <= k < |kv.0| ==> Plain(kv.0[k])) && 0 !in kv.1
  }

  function Write(kvs: seq<(bytes, bytes)>): (r: seq<bytes>)
    ensures |r| == |kvs| && forall i :: 0 <= i < |r| ==> r[i] == Parameter(kvs[i].0, kvs[i].1)
  {
    seq(|kvs|, i requires 0 <= i < |kvs| => Parameter(kvs[i].0, kvs[i].1))
  }

  /** Setting the parameters one after the other, as if nothing had to be written and parsed. */
  function SetAll(args: Args, kvs: seq<(bytes, bytes)>): Result<Args, BadQuery>
    decreases |kvs|
  {
    if kvs == [] then Ok(args)
    else
      match SetParameter(args, kvs[0].0, kvs[0].1)
      case Err(e) => Err(e)
      case Ok(next) => SetAll(next, kvs[1..])
  }

  lemma {:induction false} PlainStands(s: bytes)
    requires forall k :: 0 <= k < |s| ==> Plain(s[k])
    ensures DecodeComponent(s) == s && CString(s) == s
    ensures forall c <- s :: c != AMPERSAND && c != EQUALS
  {
    assert forall k :: 0 <= k < |s| ==> s[k] != 0;
    IndexOfIs(s, 0, |s|);
    PlainDecodes(s);
  }

  lemma {:induction false} PlainDecodes(s: bytes)
    requires forall k :: 0 <= k < |s| ==> Plain(s[k])
    ensures DecodeComponent(s) == s
  {
    if s != [] {
      assert Plain(s[0]);
      PlainDecodes(s[1..]);
      assert !Escape(s);
      assert [s[0]] + s[1..] == s;
    }
  }

  lemma {:induction false} ParameterReadsBack(kv: (bytes, bytes))
    requires Writable(kv)
    ensures SplitPair(Parameter(kv.0, kv.1)) == kv && IndexOf(Parameter(kv.0, kv.1), AMPERSAND) == |Parameter(kv.0, kv.1)|
  {
    hide DecodeComponent, EncodeComponent;
    var pair, n, e := Parameter(kv.0, kv.1), |kv.0|, EncodeComponent(kv.1);
    PlainStands(kv.0);
    ComponentReadsBack(kv.1);
    assert forall k :: 0 <= k < n ==> pair[k] == kv.0[k] && kv.0[k] in kv.0;
    assert forall k :: n < k < |pair| ==> pair[k] == e[k - n - 1] && e[k - n - 1] in e;
    IndexOfIs(pair, EQUALS, n);
    IndexOfIs(pair, AMPERSAND, |pair|);
    IndexOfIs(kv.1, 0, |kv.1|);
    assert pair[..n] == kv.0 && pair[n + 1..] == e;
    assert CString(kv.1) == kv.1;
  }

  /** Writing parameters as a query string and parsing it sets exactly those parameters, in order. */
  lemma {:induction false} QueryReadsBack(kvs: seq<(bytes, bytes)>, args: Args)
    requires kvs != [] && forall i :: 0 <= i < |kvs| ==> Writable(kvs[i])
    ensures ParsePairs(Joined(Write(kvs)), args) == SetAll(args, kvs)
    decreases |kvs|
  {
    hide SetParameter, SplitPair, Parameter;
    var pairs := Write(kvs);
    var raw, first := Joined(pairs), pairs[0];
    ParameterReadsBack(kvs[0]);
    if |kvs| == 1 {
      assert raw[..|raw|] == raw;
      assert forall next: Args :: SetAll(next, kvs[1..]) == Ok(next);
    } else {
      assert pairs[1..] == Write(kvs[1..]);
      assert raw[..|first|] == first && raw[|first| + 1..] == Joined(pairs[1..]);
      assert forall k :: 0 <= k < |first| ==> raw[k] == first[k];
      IndexOfIs(raw, AMPERSAND, |first|);
      match SetParameter(args, kvs[0].0, kvs[0].1) {
        case Err(_) =>
        case Ok(next) => QueryReadsBack(kvs[1..], next);
      }
    }
  }

  /** What a request asks of the store. */
  function ToQuery(args: Args): Labels.Query
  {
    Labels.Query(args.patterns, args.sources, args.sourcesPresent, args.after, if args.limit.Some? then args.limit.value else 0)
  }

  /** Repeating a request with the cursor a page gave out asks for what comes after that page. */
  lemma {:induction false} CursorReadsBack(id: nat, args: Args)
    requires id <= MAX_CURSOR
    ensures var r := SetParameter(args, CursorKey(), Decimal(id));
            r.Ok? && ToQuery(r.value) == ToQuery(args).(after := id)
  {
    DecimalReadsBack(id);
    hide ParseInteger, Decimal;
    assert CursorKey()[0] != PatternsKey()[0] && CursorKey()[0] != SourcesKey()[0] && CursorKey()[0] != LimitKey()[0];
  }
}
