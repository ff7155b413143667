/** base58btc decoding by long multiplication over a big-endian octet vector. */
module Base58 {
  import opened Bytes
  import opened Outcome

  /** 1-9, A-Z without I and O, a-z without l. */
  function Symbol(d: nat): char
    requires d < 58
  {
    (if d < 9 then '1' as int + d
     else if d < 17 then 'A' as int + (d - 9)
     else if d < 22 then 'J' as int + (d - 17)
     else if d < 33 then 'P' as int + (d - 22)
     else if d < 44 then 'a' as int + (d - 33)
     else 'm' as int + (d - 44)) as char
  }

  function Alphabet(): (s: string)
    ensures |s| == 58 && forall d :: 0 <= d < 58 ==> s[d] == Symbol(d)
  {
    seq(58, d requires 0 <= d < 58 => Symbol(d))
  }

  /** The characters the C library searches: the alphabet and the NUL that ends it. */
  function Searched(): (s: string)
    ensures |s| == 59 && s[58] == '\0' && forall d :: 0 <= d < 58 ==> s[d] == Symbol(d)
  {
    Alphabet() + ['\0']
  }

  function Find(s: string, c: char, from: nat): (r: Option<nat>)
    ensures r.Some? ==> from <= r.value < |s| && s[r.value] == c
    ensures r.None? ==> forall k :: from <= k < |s| ==> s[k] != c
    decreases |s| - from
  {
    if from >= |s| then None
    else if s[from] == c then Some(from)
    else Find(s, c, from + 1)
  }

  function Digit(c: char): (r: Option<nat>)
    ensures r.Some? ==> r.value <= 58 && Searched()[r.value] == c
    ensures r.Some? && c != '\0' ==> r.value < 58 && Symbol(r.value) == c
  {
    Find(Searched(), c, 0)
  }

  predicate Valid(s: string) { forall c <- s :: Digit(c).Some? }

  function Ones(s: string): (n: nat)
    ensures n <= |s| && (n < |s| ==> s[n] != '1')
    ensures forall k :: 0 <= k < n ==> s[k] == '1'
  {
    if s == "" || s[0] != '1' then 0 else 1 + Ones(s[1..])
  }

  /** The number a digit string denotes, most significant digit first. */
  function Value(s: string): nat
    requires Valid(s)
  {
    if s == "" then 0
    else
      assert s[|s| - 1] in s;
      58 * Value(s[..|s| - 1]) + Digit(s[|s| - 1]).value
  }

  function Zeros(n: nat): (bs: bytes)
    ensures |bs| == n && forall k :: 0 <= k < n ==> bs[k] == 0
  {
    seq(n, _ => 0)
  }

  function Decode(s: string): Option<bytes>
  {
    if Valid(s[Ones(s)..]) then Some(Zeros(Ones(s)) + Minimal(Value(s[Ones(s)..]))) else None
  }

  // ---------------------------------------------------------------- the carry loops

  /** `num` times 58 plus `c`, digit by digit from the right, the last carry spread in front. */
  function MulAdd(num: bytes, c: nat): bytes
  {
    if num == [] then Minimal(c)
    else
      var t := num[|num| - 1] * 58 + c;
      MulAdd(num[..|num| - 1], t / 256) + [t % 256]
  }

  lemma {:induction false} MulAddIsMinimal(num: bytes, c: nat)
    requires num != [] ==> num[0] != 0
    ensures MulAdd(num, c) == Minimal(58 * BeValue(num) + c)
  {
    hide Minimal;
    if num != [] {
      var last, front := num[|num| - 1], num[..|num| - 1];
      var t := last * 58 + c;
      MulAddIsMinimal(front, t / 256);
      BeValuePositive(num);
      CarryOver(BeValue(front), last, c);
      MinimalStep(58 * BeValue(num) + c);
    }
  }

  lemma {:induction false} BeValuePositive(bs: bytes)
    requires bs != [] && bs[0] != 0
    ensures BeValue(bs) > 0
  {
    if |bs| > 1 {
      BeValuePositive(bs[..|bs| - 1]);
    }
  }

  lemma CarryOver(high: nat, last: nat, c: nat)
    ensures var n, t := 58 * (256 * high + last) + c, last * 58 + c;
            n / 256 == 58 * high + t / 256 && n % 256 == t % 256
  {
  }

  lemma MinimalStep(n: nat)
    requires n > 0
    ensures Minimal(n) == Minimal(n / 256) + [n % 256]
  {
  }

  method DecodeLoop(s: string) returns (r: Option<bytes>)
    ensures r == Decode(s)
  {
    var pad := 0;
    while pad < |s| && s[pad] == '1'
      invariant pad <= |s| && Ones(s) == pad + Ones(s[pad..])
    {
      pad := pad + 1;
    }
    var num := DigitLoop(s[pad..]);
    if num.None? {
      return None;
    }
    return Some(Zeros(pad) + num.value);
  }

  method DigitLoop(s: string) returns (r: Option<bytes>)
    ensures r == if Valid(s) then Some(Minimal(Value(s))) else None
  {
    hide Digit, Minimal;
    var num: bytes := [];
    MinimalZero();
    for k := 0 to |s|
      invariant Valid(s[..k]) && num == Minimal(Value(s[..k]))
    {
      var q := Digit(s[k]);
      if q.None? {
        assert s[k] in s;
        return None;
      }
      assert s[..k + 1] == s[..k] + [s[k]];
      ValueAppend(s[..k], s[k]);
      DigitBound(s[k]);
      MulAddIsMinimal(num, q.value);
      num := MultiplyAdd(num, q.value);
    }
    assert s[..|s|] == s;
    return Some(num);
  }

  lemma MinimalZero()
    ensures Minimal(0) == []
  {
  }

  lemma DigitBound(c: char)
    ensures Digit(c).Some? ==> Digit(c).value <= 58
  {
  }

  method MultiplyAdd(num0: bytes, digit: nat) returns (num: bytes)
    requires digit <= 58
    ensures num == MulAdd(num0, digit)
  {
    hide Minimal;
    num := num0;
    var carry: nat := digit;
    var j: nat := |num|;
    assert num0[..j] == num0 && num[j..] == [] && MulAdd(num0, digit) + [] == MulAdd(num0, digit);
    while j > 0
      invariant j <= |num| == |num0| && carry <= 58
      invariant num[..j] == num0[..j]
      invariant MulAdd(num0, digit) == MulAdd(num0[..j], carry) + num[j..]
    {
      j := j - 1;
      var t: nat := carry + num[j] as int * 58;
      assert num0[..j + 1][..j] == num0[..j];
      ghost var tail := num[j + 1..];
      num := num[j := t % 256];
      assert num[j..] == [t % 256] + tail;
      ghost var head := MulAdd(num0[..j], t / 256);
      assert head + [t % 256] + tail == head + ([t % 256] + tail);
      carry := t / 256;
    }
    assert num[0..] == num && num0[..0] == [];
    while carry > 0
      invariant Minimal(carry) + num == MulAdd(num0, digit)
    {
      MinimalStep(carry);
      assert Minimal(carry / 256) + [carry % 256] + num == Minimal(carry / 256) + ([carry % 256] + num);
      num := [carry % 256] + num;
      carry := carry / 256;
    }
    MinimalZero();
  }

  // ---------------------------------------------------------------- the inverse

  function Digits(n: nat): string
  {
    if n == 0 then "" else Digits(n / 58) + [Symbol(n % 58)]
  }

  function LeadingZeros(bs: bytes): (n: nat)
    ensures n <= |bs| && (n < |bs| ==> bs[n] != 0)
    ensures forall k :: 0 <= k < n ==> bs[k] == 0
  {
    if bs == [] || bs[0] != 0 then 0 else 1 + LeadingZeros(bs[1..])
  }

  /** The base58btc string of an octet string. */
  function Encode(bs: bytes): string
  {
    seq(LeadingZeros(bs), _ => '1') + Digits(BeValue(bs[LeadingZeros(bs)..]))
  }

  lemma AlphabetDigit(d: nat)
    requires d < 58
    ensures Digit(Symbol(d)) == Some(d)
    ensures Symbol(d) == '1' <==> d == 0
  {
    AlphabetDistinct();
    assert Searched()[d] == Symbol(d);
    var r := Digit(Symbol(d));
    assert r.Some?;
    assert Searched()[r.value] == Searched()[d];
  }

  lemma AlphabetDistinct()
    ensures forall i, j :: 0 <= i < j < |Searched()| ==> Searched()[i] != Searched()[j]
  {
    forall i, j | 0 <= i < j < |Searched()| ensures Searched()[i] != Searched()[j] {
      if j < 58 {
        assert Symbol(i) < Symbol(j);
      } else {
        assert Symbol(i) > '\0';
      }
    }
  }

  lemma {:induction false} DigitsValue(n: nat)
    ensures Valid(Digits(n)) && Value(Digits(n)) == n
    ensures n > 0 ==> Digits(n) != "" && Digits(n)[0] != '1'
    ensures n == 0 ==> Digits(n) == ""
  {
    hide Digit, Value, Valid;
    if n == 0 {
      ValueNothing();
    } else {
      var front, d := n / 58, n % 58;
      DigitsValue(front);
      AlphabetDigit(d);
      ValueAppend(Digits(front), Symbol(d));
      assert n == 58 * front + d;
      assert Digits(n) == Digits(front) + [Symbol(d)];
    }
  }

  lemma ValueNothing()
    ensures Valid("") && Value("") == 0
  {
  }

  lemma ValueAppend(front: string, c: char)
    requires Valid(front) && Digit(c).Some?
    ensures Valid(front + [c]) && Value(front + [c]) == 58 * Value(front) + Digit(c).value
  {
    hide Digit;
    var s := front + [c];
    forall x | x in s ensures Digit(x).Some? {
      assert x in front || x == c;
    }
    assert s[..|s| - 1] == front && s[|s| - 1] == c;
  }

  /** A valid string that does not begin with '1' and holds no NUL is the digit string of its value. */
  lemma {:induction false} ValueDigits(s: string)
    requires Valid(s) && '\0' !in s && (s != "" ==> s[0] != '1')
    ensures Digits(Value(s)) == s
    ensures s != "" ==> Value(s) > 0
  {
    if s != "" {
      var front, c := s[..|s| - 1], s[|s| - 1];
      assert c in s;
      var d := Digit(c).value;
      ValueDigits(front);
      assert s == front + [c];
      assert d < 58 && Symbol(d) == c;
      if front == "" {
        AlphabetDigit(d);
        assert Value(s) == d > 0;
      }
      assert Value(s) / 58 == Value(front) && Value(s) % 58 == d;
    }
  }

  lemma {:induction false} OnesOf(n: nat, t: string)
    requires t != "" ==> t[0] != '1'
    ensures Ones(seq(n, _ => '1') + t) == n
  {
    var s := seq(n, _ => '1') + t;
    if n > 0 {
      OnesOf(n - 1, t);
      assert s[1..] == seq(n - 1, _ => '1') + t;
    } else {
      assert s == t;
    }
  }

  lemma {:induction false} ZerosOf(n: nat, bs: bytes)
    requires bs != [] ==> bs[0] != 0
    ensures LeadingZeros(Zeros(n) + bs) == n
  {
    var s := Zeros(n) + bs;
    if n > 0 {
      ZerosOf(n - 1, bs);
      assert s[1..] == Zeros(n - 1) + bs;
    } else {
      assert s == bs;
    }
  }

  /** Every octet string comes back from its base58 string. */
  lemma DecodeOfEncode(bs: bytes)
    ensures Decode(Encode(bs)) == Some(bs)
  {
    hide Minimal, Value, Digit, Valid, Digits, BeValue, Symbol;
    var z := LeadingZeros(bs);
    var n := BeValue(bs[z..]);
    DigitsValue(n);
    OnesOf(z, Digits(n));
    var s := Encode(bs);
    assert s[z..] == Digits(n);
    MinimalOfValue(bs[z..]);
    assert bs == Zeros(z) + bs[z..];
  }

  lemma {:induction false} MinimalOfValue(bs: bytes)
    requires bs != [] ==> bs[0] != 0
    ensures Minimal(BeValue(bs)) == bs
  {
    if bs != [] {
      var front := bs[..|bs| - 1];
      MinimalOfValue(front);
      BeValuePositive(bs);
      assert BeValue(bs) / 256 == BeValue(front) && BeValue(bs) % 256 == bs[|bs| - 1];
      assert bs == front + [bs[|bs| - 1]];
    }
  }

  /** A valid string comes back from the octets it decodes to just when it holds no NUL. */
  lemma EncodeOfDecode(s: string)
    requires Decode(s).Some?
    ensures Encode(Decode(s).value) == s <==> '\0' !in s
  {
    var rest := s[Ones(s)..];
    var m := Minimal(Value(rest));
    ZerosOf(Ones(s), m);
    assert (Zeros(Ones(s)) + m)[Ones(s)..] == m;
    assert s == seq(Ones(s), _ => '1') + rest;
    if '\0' !in s {
      ValueDigits(rest);
    }
    DigitsAreSymbols(BeValue(m));
  }

  /** No digit string holds a NUL. */
  lemma {:induction false} DigitsAreSymbols(n: nat)
    ensures '\0' !in Digits(n)
  {
    if n > 0 {
      DigitsAreSymbols(n / 58);
      assert Symbol(n % 58) > '\0';
    }
  }

  /** Decoding never confuses two NUL-free strings. */
  lemma DecodeInjective(s: string, t: string)
    requires Decode(s).Some? && Decode(s) == Decode(t) && '\0' !in s && '\0' !in t
    ensures s == t
  {
    EncodeOfDecode(s);
    EncodeOfDecode(t);
  }

  /** The search also finds the terminator, so a NUL is accepted as a digit worth 58, and the
      string of one NUL decodes like "21". */
  lemma NulIsADigit()
    ensures Decode(['\0']) == Some([58]) && Decode("21") == Some([58])
  {
    hide Minimal, Value, Valid, Digit;
    AlphabetDistinct();
    NulDigit();
    AlphabetDigit(0);
    AlphabetDigit(1);
    ValueNothing();
    assert "" + ['\0'] == ['\0'] && "" + "2" == "2" && "2" + "1" == "21";
    assert Symbol(0) == '1' && Symbol(1) == '2';
    ValueAppend("", '\0');
    ValueAppend("", '2');
    ValueAppend("2", '1');
    MinimalOfValue([58]);
    assert BeValue([58]) == 58;
    assert Ones("21") == 0 && "21"[0..] == "21";
    assert Ones(['\0']) == 0 && ['\0'][0..] == ['\0'];
    assert Zeros(0) + [58] == [58];
  }

  lemma NulDigit()
    ensures Digit('\0') == Some(58)
  {
    AlphabetDistinct();
    var r := Digit('\0');
    assert Searched()[58] == '\0';
    assert r.Some? && Searched()[r.value] == Searched()[58];
  }
}
