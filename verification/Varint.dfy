/** Unsigned LEB128 numbers as the archive framing uses them. */
module Varint {
  import opened Bytes
  import opened Powers
  import opened Outcome
  import opened Cbor

  /** The two failure messages, with the two places that report an overflow told apart. */
  datatype VarintError = UnexpectedEnd | OverflowInLastOctet | OverflowAfterLastOctet

  function Leb128(x: nat): (bs: bytes)
    ensures |bs| >= 1
  {
    if x < 128 then [x] else [x % 128 + 128] + Leb128(x / 128)
  }

  /** How many different values fit into the octets from number `k` (0 to 9) on. */
  function Room(k: nat): (r: nat)
    requires k <= 9
    ensures if k == 9 then r == 2 else r >= 256
    decreases 9 - k
  {
    if k == 9 then 2 else 128 * Room(k + 1)
  }

  /** The number read from octet number `k` on, least significant group first. */
  function VarintFrom(p: bytes, limit: nat, i: nat, k: nat): (r: Result<Decoded<nat>, VarintError>)
    requires limit <= |p| && k <= 9
    ensures r.Ok? ==> r.value.value < Room(k) && i < r.value.next <= limit && r.value.next <= i + 10 - k
    ensures r.Err? ==> r.error != OverflowAfterLastOctet
    decreases 9 - k
  {
    if i >= limit then Err(UnexpectedEnd)
    else if k == 9 && p[i] >= 2 then Err(OverflowInLastOctet)
    else if p[i] < 128 then Ok(Decoded(p[i], i + 1))
    else
      var rest :- VarintFrom(p, limit, i + 1, k + 1);
      Ok(Decoded(p[i] % 128 + 128 * rest.value, rest.next))
  }

  function ReadVarint(p: bytes, limit: nat, i: nat): (r: Result<Decoded<nat>, VarintError>)
    requires limit <= |p|
    ensures r.Ok? ==> r.value.value < UINT64_LIMIT && i < r.value.next <= limit && r.value.next <= i + 10
  {
    assert Room(0) == UINT64_LIMIT by { RoomIs64Bits(); }
    VarintFrom(p, limit, i, 0)
  }

  lemma RoomIs64Bits()
    ensures Room(0) == UINT64_LIMIT
  {
    assert Room(9) == 2 && Room(8) == 0x100 && Room(7) == 0x8000 && Room(6) == 0x40_0000;
    assert Room(5) == 128 * Room(6) && Room(4) == 128 * Room(5) && Room(3) == 128 * Room(4);
    assert Room(2) == 128 * Room(3) && Room(1) == 128 * Room(2) && Room(0) == 128 * Room(1);
  }

  /** A value that takes more than one octet leaves room for its other groups. */
  lemma RoomForRest(x: nat, k: nat)
    requires k <= 9 && 128 <= x < Room(k)
    ensures k < 9 && x / 128 < Room(k + 1) && x == x % 128 + 128 * (x / 128)
  {
  }

  lemma Leb128Octets(x: nat, p: bytes, i: nat)
    requires At(p, i, Leb128(x))
    ensures i < |p|
    ensures x < 128 ==> |Leb128(x)| == 1 && p[i] == x
    ensures x >= 128 ==> |Leb128(x)| == 1 + |Leb128(x / 128)| && p[i] == x % 128 + 128 && At(p, i + 1, Leb128(x / 128))
  {
    assert p[i] == p[i..i + |Leb128(x)|][0] == Leb128(x)[0];
    hide At;
    if x >= 128 {
      AtConcat(p, i, [x % 128 + 128], Leb128(x / 128));
    }
  }

  /** One group of a number, and the rest read behind it. */
  lemma VarintFromStep(p: bytes, limit: nat, i: nat, k: nat, rest: Decoded<nat>)
    requires i < limit <= |p| && k < 9 && p[i] >= 128 && VarintFrom(p, limit, i + 1, k + 1) == Ok(rest)
    ensures VarintFrom(p, limit, i, k) == Ok(Decoded(p[i] % 128 + 128 * rest.value, rest.next))
  {
  }

  lemma VarintFromLast(p: bytes, limit: nat, i: nat, k: nat)
    requires i < limit <= |p| && k <= 9 && p[i] < 128 && (k == 9 ==> p[i] < 2)
    ensures VarintFrom(p, limit, i, k) == Ok(Decoded(p[i], i + 1))
  {
  }

  lemma {:induction false} VarintFromReadsBack(x: nat, p: bytes, limit: nat, i: nat, k: nat)
    requires limit <= |p| && k <= 9 && x < Room(k)
    requires At(p, i, Leb128(x)) && i + |Leb128(x)| <= limit
    ensures VarintFrom(p, limit, i, k) == Ok(Decoded(x, i + |Leb128(x)|))
    decreases 9 - k
  {
    hide At, Room, Leb128, VarintFrom;
    Leb128Octets(x, p, i);
    if x < 128 {
      VarintFromLast(p, limit, i, k);
    } else {
      RoomForRest(x, k);
      VarintFromReadsBack(x / 128, p, limit, i + 1, k + 1);
      VarintFromStep(p, limit, i, k, Decoded(x / 128, i + |Leb128(x)|));
      assert p[i] % 128 == x % 128;
    }
  }

  /** Reading undoes writing for every 64-bit value. */
  lemma VarintReadsBack(x: nat, p: bytes, limit: nat, i: nat)
    requires limit <= |p| && x < UINT64_LIMIT
    requires At(p, i, Leb128(x)) && i + |Leb128(x)| <= limit
    ensures ReadVarint(p, limit, i) == Ok(Decoded(x, i + |Leb128(x)|))
    ensures |Leb128(x)| <= 10
  {
    RoomIs64Bits();
    VarintFromReadsBack(x, p, limit, i, 0);
  }

  lemma Pow2Plus7(n: nat)
    ensures Pow2(n + 7) == 128 * Pow2(n)
  {
    assert Pow2(n + 2) == 2 * Pow2(n + 1) && Pow2(n + 4) == 2 * Pow2(n + 3) && Pow2(n + 6) == 2 * Pow2(n + 5);
    assert Pow2(n + 3) == 2 * Pow2(n + 2) && Pow2(n + 5) == 2 * Pow2(n + 4) && Pow2(n + 7) == 2 * Pow2(n + 6);
  }

  /** A result of reading the later groups, with the earlier ones `x` below them. */
  ghost function Above(x: nat, scale: nat, r: Result<Decoded<nat>, VarintError>): Result<Decoded<nat>, VarintError>
  {
    match r
    case Ok(d) => Ok(Decoded(x + d.value * scale, d.next))
    case Err(e) => Err(e)
  }

  lemma AboveStep(x: nat, scale: nat, b: nat, r: Result<Decoded<nat>, VarintError>)
    ensures Above(x, scale, Above(b, 128, r)) == Above(x + b * scale, 128 * scale, r)
  {
    if r.Ok? {
      var v := r.value.value;
      assert (b + v * 128) * scale == b * scale + v * (128 * scale);
    }
  }

  /** `x` with the seven-bit group `g` put at bit `shift`, above all of its bits. */
  function OrGroup(x: nat, g: nat, shift: nat): nat
  {
    x + g * Pow2(shift)
  }

  /** The loop has read `k` groups into `x`, all of it below bit `shift`, and `first` is what the rest makes of it. */
  ghost predicate Reading(first: Result<Decoded<nat>, VarintError>, p: bytes, limit: nat, i: nat, k: nat, x: nat, shift: nat)
    requires limit <= |p|
  {
    k <= 9 && shift == 7 * k && x < Pow2(shift) && first == Above(x, Pow2(shift), VarintFrom(p, limit, i, k))
  }

  /** What one turn of the loop makes of the number being read. */
  lemma Turn(first: Result<Decoded<nat>, VarintError>, p: bytes, limit: nat, i: nat, k: nat, x: nat, shift: nat)
    requires limit <= |p| && Reading(first, p, limit, i, k, x, shift)
    ensures shift <= 63 && (shift == 63 <==> k == 9)
    ensures if i >= limit then first == Err(UnexpectedEnd)
            else if shift == 63 && p[i] >= 2 then first == Err(OverflowInLastOctet)
            else
              var next := OrGroup(x, p[i] % 128, shift);
              if p[i] < 128 then first == Ok(Decoded(next, i + 1))
              else k < 9 && Reading(first, p, limit, i + 1, k + 1, next, shift + 7)
  {
    if i < limit && k < 9 && p[i] >= 128 {
      var rest := VarintFrom(p, limit, i + 1, k + 1);
      assert VarintFrom(p, limit, i, k) == Above(p[i] % 128, 128, rest);
      AboveStep(x, Pow2(shift), p[i] % 128, rest);
      Pow2Plus7(shift);
      Group(x, shift, p[i] % 128);
    }
  }

  /** The shifting loop. Each group lies above everything read so far, so the bitwise or of the
      program is an addition here: the invariant x < 2^shift says so. */
  method Uvarint(p: bytes, limit: nat, start: nat) returns (r: Result<Decoded<nat>, VarintError>)
    requires limit <= |p|
    ensures r == ReadVarint(p, limit, start)
    ensures r.Err? ==> r.error != OverflowAfterLastOctet
  {
    ghost var first := ReadVarint(p, limit, start);
    FirstTurn(first, p, limit, start);
    hide Reading, ReadVarint, OrGroup;
    var i: nat, x: nat, shift: nat := start, 0, 0;
    ghost var k: nat := 0;
    while true
      invariant k <= 9 && Reading(first, p, limit, i, k, x, shift)
      decreases 9 - k
    {
      Turn(first, p, limit, i, k, x, shift);
      if i >= limit {
        return Err(UnexpectedEnd);
      }
      var b := p[i];
      if shift >= 63 && b >= 2 {
        return Err(OverflowInLastOctet);
      }
      i := i + 1;
      x := OrGroup(x, b % 128, if shift < 63 then shift else 63);
      if b < 128 {
        return Ok(Decoded(x, i));
      }
      if shift >= 63 {
        return Err(OverflowAfterLastOctet);
      }
      shift := shift + 7;
      k := k + 1;
    }
  }

  lemma FirstTurn(first: Result<Decoded<nat>, VarintError>, p: bytes, limit: nat, start: nat)
    requires limit <= |p| && first == ReadVarint(p, limit, start)
    ensures Reading(first, p, limit, start, 0, 0, 0)
  {
  }

  lemma Group(x: nat, shift: nat, g: nat)
    requires x < Pow2(shift) && g < 128
    ensures OrGroup(x, g, shift) < Pow2(shift + 7)
  {
    Pow2Plus7(shift);
    assert g * Pow2(shift) <= 127 * Pow2(shift);
  }
}
