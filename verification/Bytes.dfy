/** Octet strings and the big-endian numbers stored in them. */
module Bytes {
  type byte = b: int | 0 <= b < 256

  type bytes = seq<byte>

  /** 256 to the power of `n`. */
  function Pow256(n: nat): (r: nat)
    ensures r >= 1
  {
    if n == 0 then 1 else 256 * Pow256(n - 1)
  }

  /** The low `width` octets of `val`, most significant first. */
  function BigEndian(val: nat, width: nat): (bs: bytes)
    ensures |bs| == width
  {
    if width == 0 then [] else BigEndian(val / 256, width - 1) + [val % 256]
  }

  /** The number an octet string denotes, most significant octet first. */
  function BeValue(bs: bytes): nat
  {
    if bs == [] then 0 else 256 * BeValue(bs[..|bs| - 1]) + bs[|bs| - 1]
  }

  lemma PairValue(bs: bytes)
    requires |bs| == 2
    ensures BeValue(bs) == bs[0] as int * 256 + bs[1] as int
  {
    assert bs[..1] == [bs[0]] && bs[..1][..0] == [];
    assert BeValue(bs[..1]) == bs[0] as int;
  }

  /** The shortest big-endian form of a number; nothing for zero. */
  function Minimal(n: nat): (bs: bytes)
    ensures BeValue(bs) == n
    ensures n > 0 ==> |bs| > 0 && bs[0] != 0
    ensures n == 0 ==> bs == []
  {
    if n == 0 then [] else
    var bs := Minimal(n / 256) + [n % 256];
    assert bs[..|bs| - 1] == Minimal(n / 256);
    bs
  }

  lemma {:induction false} BigEndianValue(val: nat, width: nat)
    requires val < Pow256(width)
    ensures BeValue(BigEndian(val, width)) == val
  {
    if width == 0 {
    } else {
      assert val == 256 * (val / 256) + val % 256;
      BigEndianValue(val / 256, width - 1);
      assert BigEndian(val, width)[..width - 1] == BigEndian(val / 256, width - 1);
    }
  }

  /** The first position of `c`, or the end. */
  function IndexOf(s: bytes, c: byte): (n: nat)
    ensures n <= |s| && (n < |s| ==> s[n] == c)
    ensures forall k :: 0 <= k < n ==> s[k] != c
  {
    if s == [] || s[0] == c then 0 else 1 + IndexOf(s[1..], c)
  }

  lemma IndexOfIs(s: bytes, c: byte, n: nat)
    requires n <= |s| && (n < |s| ==> s[n] == c) && forall k :: 0 <= k < n ==> s[k] != c
    ensures IndexOf(s, c) == n
  {
    hide IndexOf;
  }

  /** Octets `bs` stand in `p` at offset `i`. */
  ghost predicate At(p: bytes, i: nat, bs: bytes)
  {
    i + |bs| <= |p| && p[i..i + |bs|] == bs
  }

  lemma AtConcat(p: bytes, i: nat, a: bytes, b: bytes)
    ensures At(p, i, a + b) <==> At(p, i, a) && At(p, i + |a|, b)
  {
    if At(p, i, a + b) {
      assert p[i..i + |a|] == (a + b)[..|a|] == a by {
        assert p[i..i + |a|] == p[i..i + |a + b|][..|a|];
      }
      assert p[i + |a|..i + |a| + |b|] == (a + b)[|a|..] == b by {
        assert p[i + |a|..i + |a| + |b|] == p[i..i + |a + b|][|a|..];
      }
    }
    if At(p, i, a) && At(p, i + |a|, b) {
      assert p[i..i + |a + b|] == p[i..i + |a|] + p[i + |a|..i + |a| + |b|];
    }
  }
}
