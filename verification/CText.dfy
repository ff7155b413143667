/** Text and numbers as the C library reads them. */
module CText {
  import opened Bytes
  import opened Outcome

  const SPACE: byte := 32

  /** A string as C reads it, up to its first zero octet. */
  function CString(s: bytes): bytes { s[..IndexOf(s, 0)] }

  predicate IsSpace(c: byte) { c == SPACE || 9 <= c <= 13 }

  predicate IsDigit(c: byte) { 48 <= c <= 57 }

  function DigitsValue(s: bytes): nat
    requires forall c <- s :: IsDigit(c)
  {
    if s == [] then 0
    else
      assert IsDigit(s[|s| - 1]);
      10 * DigitsValue(s[..|s| - 1]) + (s[|s| - 1] as int - 48)
  }

  function SkipSpaces(s: bytes): bytes { if s != [] && IsSpace(s[0]) then SkipSpaces(s[1..]) else s }

  /** A whole decimal number: space before it and one sign are allowed, anything else after it is not. */
  function ParseInteger(s: bytes): Option<int>
  {
    var t := SkipSpaces(s);
    var signed := t != [] && (t[0] == 43 || t[0] == 45);
    var digits := if signed then t[1..] else t;
    if digits == [] || exists c <- digits :: !IsDigit(c) then None
    else
      var n: int := DigitsValue(digits);
      Some(if signed && t[0] == 45 then -n else n)
  }

  function Decimal(n: nat): (s: bytes)
    ensures s != [] && forall c <- s :: IsDigit(c)
  {
    (if n < 10 then [] else Decimal(n / 10)) + [48 + n % 10]
  }

  lemma {:induction false} DecimalReadsBack(n: nat)
    ensures DigitsValue(Decimal(n)) == n && ParseInteger(Decimal(n)) == Some(n)
  {
    var s := Decimal(n);
    assert s[..|s| - 1] == if n < 10 then [] else Decimal(n / 10);
    if n >= 10 {
      DecimalReadsBack(n / 10);
    }
    assert IsDigit(s[0]);
    assert SkipSpaces(s) == s;
  }

  /** A number with its sign. */
  function Signed(n: int): bytes { if n < 0 then [45] + Decimal(-n) else Decimal(n) }

  lemma {:induction false} SignedReadsBack(n: int)
    ensures ParseInteger(Signed(n)) == Some(n) && Signed(n) != [] && forall c <- Signed(n) :: IsDigit(c) || c == 45
  {
    if n < 0 {
      DecimalReadsBack(-n);
      var s := Signed(n);
      assert SkipSpaces(s) == s && s[1..] == Decimal(-n);
    } else {
      DecimalReadsBack(n);
    }
  }
}
