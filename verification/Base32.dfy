/** Lower-case base32 without padding, built in a 32-bit shift register that overflows. */
module Base32 {
  import opened Bytes
  import opened Powers
  import Division

  type bit = b: int | 0 <= b < 2

  const ALPHABET := "abcdefghijklmnopqrstuvwxyz234567"

  /** The low `n` bits of a number, high bit first. */
  function BitsOf(v: nat, n: nat): (r: seq<bit>)
    ensures |r| == n
  {
    if n == 0 then [] else BitsOf(v / 2, n - 1) + [v % 2]
  }

  function BitsValue(bits: seq<bit>): (v: nat)
    ensures v < Pow2(|bits|)
  {
    if bits == [] then 0 else 2 * BitsValue(bits[..|bits| - 1]) + (bits[|bits| - 1] as int)
  }

  lemma {:induction false} BitsOfValue(bits: seq<bit>)
    ensures BitsOf(BitsValue(bits), |bits|) == bits
  {
    if bits != [] {
      BitsOfValue(bits[..|bits| - 1]);
    }
  }

  lemma {:induction false} ValueOfBits(v: nat, n: nat)
    requires v < Pow2(n)
    ensures BitsValue(BitsOf(v, n)) == v
  {
    if n > 0 {
      ValueOfBits(v / 2, n - 1);
      assert BitsOf(v, n)[..n - 1] == BitsOf(v / 2, n - 1);
    }
  }

  function Bits(bs: bytes): (r: seq<bit>)
    ensures |r| == 8 * |bs|
  {
    if bs == [] then [] else BitsOf(bs[0], 8) + Bits(bs[1..])
  }

  /** Section 6 of RFC 4648: five bits to a character, the last group filled with zero bits. */
  function Characters(bits: seq<bit>): (s: string)
    ensures |s| == (|bits| + 4) / 5
  {
    if bits == [] then ""
    else if |bits| < 5 then [Symbol(bits + Zeros(5 - |bits|))]
    else [Symbol(bits[..5])] + Characters(bits[5..])
  }

  function Zeros(n: nat): (r: seq<bit>)
    ensures |r| == n && forall k :: 0 <= k < n ==> r[k] == 0
  {
    seq(n, _ => 0)
  }

  function Symbol(five: seq<bit>): char
    requires |five| == 5
  {
    SmallPowers();
    ALPHABET[BitsValue(five)]
  }

  lemma SmallPowers()
    ensures Pow2(0) == 1 && Pow2(1) == 2 && Pow2(2) == 4 && Pow2(3) == 8 && Pow2(4) == 16 && Pow2(5) == 32
    ensures Pow2(6) == 64 && Pow2(7) == 128 && Pow2(8) == 256 && Pow2(9) == 512 && Pow2(10) == 1024
    ensures Pow2(11) == 2048 && Pow2(12) == 4096
  {
    assert Pow2(1) == 2 * Pow2(0) && Pow2(3) == 2 * Pow2(2) && Pow2(5) == 2 * Pow2(4) && Pow2(7) == 2 * Pow2(6);
    assert Pow2(9) == 2 * Pow2(8) && Pow2(11) == 2 * Pow2(10);
  }

  function Encode(bs: bytes): (s: string)
    ensures |s| == (8 * |bs| + 4) / 5
  {
    Characters(Bits(bs))
  }

  // ---------------------------------------------------------------- the shift register

  lemma {:induction false} ValueOfConcat(a: seq<bit>, b: seq<bit>)
    ensures BitsValue(a + b) == BitsValue(a) * Pow2(|b|) + BitsValue(b)
  {
    if b == [] {
      assert a + b == a;
    } else {
      var front, last := b[..|b| - 1], b[|b| - 1];
      ValueOfConcat(a, front);
      assert (a + b)[..|a + b| - 1] == a + front && (a + b)[|a + b| - 1] == last;
      Double(BitsValue(a), Pow2(|b| - 1));
    }
  }

  lemma Double(x: nat, p: nat)
    ensures x * (2 * p) == 2 * (x * p)
  {
  }

  const REGISTER := 0x1_0000_0000

  /** Shifting eight bits in and losing the top of the register keeps the low bits right. */
  lemma ShiftIn(buffer: nat, n: nat, c: byte)
    requires n < 5
    ensures (buffer * 256 + c) % REGISTER % Pow2(n + 8) == (buffer % Pow2(n)) * 256 + c
  {
    SmallPowers();
    assert Pow2(n) * 256 * (REGISTER / (Pow2(n) * 256)) == REGISTER && Pow2(n + 8) == Pow2(n) * 256;
    hide Pow2;
    ShiftInBy(buffer, c, Pow2(n), REGISTER / (Pow2(n) * 256));
  }

  lemma ShiftInBy(buffer: nat, c: byte, d: nat, e: nat)
    requires d > 0 && d * 256 * e == REGISTER
    ensures (buffer * 256 + c) % REGISTER % (d * 256) == (buffer % d) * 256 + c
  {
    var x, small := buffer * 256 + c, d * 256;
    var q, all := x / REGISTER, x % REGISTER;
    var h, p := buffer / d, buffer % d;
    assert x == small * h + (p * 256 + c);
    assert REGISTER * q == small * (e * q) by { assert REGISTER == small * e; }
    assert all == (h - e * q) * small + (p * 256 + c);
    assert p * 256 + c < small by { assert p <= d - 1; }
    Division.Unique(all, small, h - e * q, p * 256 + c);
  }

  /** Five bits from the top of the pending ones, the rest left below. */
  lemma TakeFive(buffer: nat, m: nat, high: nat, low: nat)
    requires m > 0 && low < m && high < 32 && buffer % (32 * m) == high * m + low
    ensures buffer / m % 32 == high && buffer % m == low
  {
    var q := buffer / (32 * m);
    assert buffer == (32 * m) * q + (high * m + low);
    assert (32 * m) * q == (32 * q) * m;
    assert (32 * q + high) * m == (32 * q) * m + high * m;
    Division.Unique(buffer, m, 32 * q + high, low);
  }

  /** `(buffer << 8) | c` in the register. */
  function ShiftedIn(buffer: nat, c: byte): (r: nat)
    ensures r < REGISTER
  {
    (buffer * 256 + c) % REGISTER
  }

  /** `(buffer >> bits) & 0x1f`. */
  function TopFive(buffer: nat, bits: nat): (r: nat)
    ensures r < 32
  {
    buffer / Pow2(bits) % 32
  }

  /** `(buffer << (5 - bits)) & 0x1f`. */
  function LastFive(buffer: nat, bits: nat): (r: nat)
    requires bits < 5
    ensures r < 32
  {
    buffer * Pow2(5 - bits) % REGISTER % 32
  }

  /** The register holds the pending bits at its low end. */
  ghost predicate Holds(buffer: nat, pending: seq<bit>)
  {
    buffer < REGISTER && buffer % Pow2(|pending|) == BitsValue(pending)
  }

  method EncodeLoop(bs: bytes) returns (out: string)
    ensures out == Encode(bs)
  {
    hide Pow2, BitsValue, Characters, Symbol, ShiftedIn, TopFive, LastFive, Holds, BitsOf;
    out := "";
    var buffer: nat, bits: nat := 0, 0;
    ghost var pending: seq<bit> := [];
    assert bs[0..] == bs && [] + Bits(bs) == Bits(bs) && "" + Encode(bs) == Encode(bs);
    NothingHeld();
    for k := 0 to |bs|
      invariant |pending| == bits < 5 && Holds(buffer, pending)
      invariant out + Characters(pending + Bits(bs[k..])) == Encode(bs)
    {
      assert bs[k..][0] == bs[k] && bs[k..][1..] == bs[k + 1..];
      ghost var rest := Bits(bs[k + 1..]);
      assert pending + Bits(bs[k..]) == pending + BitsOf(bs[k], 8) + rest;
      Push(buffer, pending, bs[k]);
      buffer := ShiftedIn(buffer, bs[k]);
      pending := pending + BitsOf(bs[k], 8);
      bits := bits + 8;
      while bits >= 5
        invariant |pending| == bits < 13 && Holds(buffer, pending)
        invariant out + Characters(pending + rest) == Encode(bs)
      {
        Pop(buffer, pending, rest);
        bits := bits - 5;
        ghost var tail := Characters(pending[5..] + rest);
        ghost var c := Symbol(pending[..5]);
        assert out + ([c] + tail) == out + [c] + tail;
        out := out + [ALPHABET[TopFive(buffer, bits)]];
        pending := pending[5..];
      }
    }
    assert pending + Bits([]) == pending;
    if bits > 0 {
      FillUp(buffer, pending);
      out := out + [ALPHABET[LastFive(buffer, bits)]];
    } else {
      NoCharacters();
    }
  }

  lemma NothingHeld()
    ensures Holds(0, [])
  {
  }

  lemma NoCharacters()
    ensures Characters([]) == ""
  {
  }

  lemma Pow2Plus5(n: nat)
    ensures Pow2(n + 5) == 32 * Pow2(n)
  {
    assert Pow2(n + 2) == 4 * Pow2(n) && Pow2(n + 4) == 4 * Pow2(n + 2);
  }

  lemma Push(buffer: nat, pending: seq<bit>, c: byte)
    requires |pending| < 5 && Holds(buffer, pending)
    ensures Holds(ShiftedIn(buffer, c), pending + BitsOf(c, 8))
  {
    SmallPowers();
    ShiftIn(buffer, |pending|, c);
    ValueOfConcat(pending, BitsOf(c, 8));
    ValueOfBits(c, 8);
  }

  lemma Pop(buffer: nat, pending: seq<bit>, rest: seq<bit>)
    requires 5 <= |pending| < 13 && Holds(buffer, pending)
    ensures ALPHABET[TopFive(buffer, |pending| - 5)] == Symbol(pending[..5])
    ensures Holds(buffer, pending[5..])
    ensures Characters(pending + rest) == [Symbol(pending[..5])] + Characters(pending[5..] + rest)
  {
    hide Pow2, BitsValue;
    var high, low := pending[..5], pending[5..];
    SmallPowers();
    ValueOfConcat(high, low);
    assert pending == high + low;
    Pow2Plus5(|low|);
    TakeFive(buffer, Pow2(|low|), BitsValue(high), BitsValue(low));
    CharactersStep(high, low, rest);
  }

  lemma CharactersStep(high: seq<bit>, low: seq<bit>, rest: seq<bit>)
    requires |high| == 5
    ensures Characters(high + low + rest) == [Symbol(high)] + Characters(low + rest)
  {
    var all := high + low + rest;
    assert all[..5] == high && all[5..] == low + rest;
  }

  /** The last group: shifted left until five bits are there, zeros from the right. */
  lemma FillUp(buffer: nat, pending: seq<bit>)
    requires 0 < |pending| < 5 && Holds(buffer, pending)
    ensures Characters(pending) == [ALPHABET[LastFive(buffer, |pending|)]]
  {
    hide Characters, Holds, LastFive, BitsValue;
    LastCharacters(pending);
    LastFiveValue(buffer, pending);
  }

  lemma LastFiveValue(buffer: nat, pending: seq<bit>)
    requires 0 < |pending| < 5 && Holds(buffer, pending)
    ensures LastFive(buffer, |pending|) == BitsValue(pending + Zeros(5 - |pending|))
  {
    hide Pow2, BitsValue, Zeros;
    var n := |pending|;
    ZerosValue(5 - n);
    ValueOfConcat(pending, Zeros(5 - n));
    ShiftLeft(buffer, n);
  }

  lemma LastCharacters(pending: seq<bit>)
    requires 0 < |pending| < 5
    ensures Characters(pending) == [Symbol(pending + Zeros(5 - |pending|))]
  {
    hide Symbol;
  }

  lemma ShiftLeft(buffer: nat, n: nat)
    requires 0 < n < 5
    ensures buffer * Pow2(5 - n) % REGISTER % 32 == (buffer % Pow2(n)) * Pow2(5 - n)
  {
    SmallPowers();
    assert Pow2(n) * Pow2(5 - n) == 32;
    LeftBy(buffer, Pow2(n), Pow2(5 - n), 0x800_0000);
  }

  lemma LeftBy(buffer: nat, d: nat, e: nat, big: nat)
    requires d > 0 && e > 0 && big > 0
    ensures d * e * big > 0 && d * e > 0
    ensures (buffer * e) % (d * e * big) % (d * e) == (buffer % d) * e
  {
    assert d * e > 0;
    assert d * e * big > 0;
    var x, all := buffer * e, (buffer * e) % (d * e * big);
    var q := x / (d * e * big);
    var h, p := buffer / d, buffer % d;
    assert x == (d * e * big) * q + all;
    assert buffer == d * h + p;
    assert x == (d * e) * h + p * e by {
      assert (d * h + p) * e == d * h * e + p * e;
      assert d * h * e == d * e * h;
    }
    assert (d * e * big) * q == (d * e) * (big * q);
    assert all == (h - big * q) * (d * e) + p * e by {
      assert (h - big * q) * (d * e) == h * (d * e) - (big * q) * (d * e);
    }
    assert p * e < d * e;
    Division.Unique(all, d * e, h - big * q, p * e);
  }

  lemma {:induction false} ZerosValue(n: nat)
    ensures BitsValue(Zeros(n)) == 0
  {
    if n > 0 {
      assert Zeros(n)[..n - 1] == Zeros(n - 1);
      ZerosValue(n - 1);
    }
  }

  // ---------------------------------------------------------------- reading it back

  /** The five bits of each character, end to end. */
  function CharacterBits(s: string): seq<bit>
  {
    if s == "" then [] else SymbolBits(s[0]) + CharacterBits(s[1..])
  }

  function SymbolBits(c: char): (r: seq<bit>)
    ensures |r| == 5
  {
    BitsOf(if 'a' <= c <= 'z' then c as int - 'a' as int
           else if '2' <= c <= '7' then 26 + (c as int - '2' as int) else 0, 5)
  }

  lemma AlphabetAt(v: nat)
    requires v < 32
    ensures ALPHABET[v] == (if v < 26 then 'a' as int + v else '2' as int + (v - 26)) as char
  {
  }

  lemma SymbolBitsBack(five: seq<bit>)
    requires |five| == 5
    ensures SymbolBits(Symbol(five)) == five
  {
    SmallPowers();
    AlphabetAt(BitsValue(five));
    BitsOfValue(five);
  }

  /** The characters hold exactly the bits of the input and fewer than five zero bits behind them. */
  lemma {:induction false} CharactersReadBack(bits: seq<bit>)
    ensures CharacterBits(Characters(bits)) == bits + Zeros(5 * ((|bits| + 4) / 5) - |bits|)
  {
    hide Symbol, SymbolBits;
    if bits == [] {
    } else if |bits| < 5 {
      SymbolBitsBack(bits + Zeros(5 - |bits|));
    } else {
      SymbolBitsBack(bits[..5]);
      CharactersReadBack(bits[5..]);
      assert bits == bits[..5] + bits[5..];
    }
  }

  lemma {:induction false} BitsInjective(a: bytes, b: bytes)
    requires |a| == |b| && Bits(a) == Bits(b)
    ensures a == b
  {
    if a != [] {
      assert BitsOf(a[0], 8) == Bits(a)[..8] && BitsOf(b[0], 8) == Bits(b)[..8];
      SmallPowers();
      ValueOfBits(a[0], 8);
      ValueOfBits(b[0], 8);
      assert Bits(a[1..]) == Bits(a)[8..] && Bits(b[1..]) == Bits(b)[8..];
      BitsInjective(a[1..], b[1..]);
      assert a == [a[0]] + a[1..] && b == [b[0]] + b[1..];
    }
  }

  /** Different octet strings get different base32 strings. */
  lemma EncodeInjective(a: bytes, b: bytes)
    requires Encode(a) == Encode(b)
    ensures a == b
  {
    assert |a| == |b| by { assert (8 * |a| + 4) / 5 == (8 * |b| + 4) / 5; }
    CharactersReadBack(Bits(a));
    CharactersReadBack(Bits(b));
    var zs := Zeros(5 * ((8 * |a| + 4) / 5) - 8 * |a|);
    assert Bits(a) == (Bits(a) + zs)[..8 * |a|] && Bits(b) == (Bits(b) + zs)[..8 * |b|];
    BitsInjective(a, b);
  }
}
