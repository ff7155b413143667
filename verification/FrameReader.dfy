/** WebSocket frames read from a connection that delivers octets in pieces of its own choosing. */
module FrameReader {
  import opened Bytes
  import opened Outcome
  import opened Powers

  const MAX_PAYLOAD := 0x4000_0000
  const CHUNK := 65536

  /** What reading reports instead of a frame. */
  datatype Failure = Closed | SocketError | FrameTooLarge

  datatype Frame = Frame(opcode: nat, payload: bytes)

  // ---------------------------------------------------------------- masking

  /** The exclusive or of the `n` low bits. */
  function XorBits(a: nat, b: nat, n: nat): (r: nat)
  {
    if n == 0 then 0 else 2 * XorBits(a / 2, b / 2, n - 1) + if a % 2 == b % 2 then 0 else 1
  }

  lemma {:induction false} XorRange(a: nat, b: nat, n: nat)
    ensures XorBits(a, b, n) < Pow2(n)
  {
    if n > 0 {
      XorRange(a / 2, b / 2, n - 1);
    }
  }

  function Xor(a: byte, b: byte): byte
  {
    XorRange(a, b, 8);
    assert Pow2(8) == 2 * Pow2(7) == 4 * Pow2(6) == 8 * Pow2(5) == 16 * Pow2(4) == 256;
    XorBits(a, b, 8)
  }

  lemma {:induction false} XorBitsTwice(a: nat, b: nat, n: nat)
    requires a < Pow2(n)
    ensures XorBits(XorBits(a, b, n), b, n) == a
  {
    if n > 0 {
      var x, half := XorBits(a, b, n), XorBits(a / 2, b / 2, n - 1);
      assert x / 2 == half && x % 2 == if a % 2 == b % 2 then 0 else 1;
      XorBitsTwice(a / 2, b / 2, n - 1);
      assert XorBits(x, b, n) == 2 * XorBits(half, b / 2, n - 1) + if x % 2 == b % 2 then 0 else 1;
    }
  }

  lemma XorTwice(a: byte, b: byte)
    ensures Xor(Xor(a, b), b) == a
  {
    assert Pow2(8) == 2 * Pow2(7) == 4 * Pow2(6) == 8 * Pow2(5) == 16 * Pow2(4) == 256;
    XorBitsTwice(a, b, 8);
  }

  /** Octet `i` is combined with octet `i` modulo four of the key (section 5.3 of RFC 6455). */
  function Masked(payload: bytes, key: bytes): (r: bytes)
    requires |key| == 4
    ensures |r| == |payload| && forall i :: 0 <= i < |r| ==> r[i] == Xor(payload[i], key[i % 4])
  {
    seq(|payload|, i requires 0 <= i < |payload| => Xor(payload[i], key[i % 4]))
  }

  lemma MaskedTwice(payload: bytes, key: bytes)
    requires |key| == 4
    ensures Masked(Masked(payload, key), key) == payload
  {
    forall i | 0 <= i < |payload|
      ensures Masked(Masked(payload, key), key)[i] == payload[i]
    {
      XorTwice(payload[i], key[i % 4]);
    }
  }

  // ---------------------------------------------------------------- frames in a stream

  /** The payload and what follows, once the length is known. */
  function DecodeBody(s: bytes, opcode: nat, masked: bool, n: nat, ending: Failure): Result<(Frame, bytes), Failure>
  {
    var at := if masked then 4 else 0;
    if n > MAX_PAYLOAD then Err(FrameTooLarge)
    else if |s| < at + n then Err(ending)
    else Ok((Frame(opcode, if masked then Masked(s[at..at + n], s[..4]) else s[at..at + n]), s[at + n..]))
  }

  /** The first frame of a stream and the rest; a stream that is too short ends as its connection does. */
  function Decode(s: bytes, ending: Failure): Result<(Frame, bytes), Failure>
  {
    if |s| < 2 then Err(ending)
    else
      var opcode, masked, n := s[0] % 16, s[1] >= 128, s[1] % 128;
      if n == 126 then
        if |s| < 4 then Err(ending) else DecodeBody(s[4..], opcode, masked, BeValue(s[2..4]), ending)
      else if n == 127 then
        if |s| < 10 then Err(ending) else DecodeBody(s[10..], opcode, masked, BeValue(s[2..10]), ending)
      else DecodeBody(s[2..], opcode, masked, n, ending)
  }

  lemma {:induction false} DecodeShrinks(s: bytes, ending: Failure)
    requires Decode(s, ending).Ok?
    ensures |Decode(s, ending).value.1| < |s|
  {
  }

  /** All frames of a stream, and why there is no further one. */
  function DecodeAll(s: bytes, ending: Failure): (seq<Frame>, Failure)
    decreases |s|
  {
    match Decode(s, ending)
    case Err(e) => ([], e)
    case Ok((frame, rest)) =>
      DecodeShrinks(s, ending);
      var (frames, e) := DecodeAll(rest, ending);
      ([frame] + frames, e)
  }

  /** Frames read before the others. */
  ghost function Behind(frames: seq<Frame>, rest: (seq<Frame>, Failure)): (seq<Frame>, Failure) { (frames + rest.0, rest.1) }

  lemma NothingBefore(rest: (seq<Frame>, Failure))
    ensures Behind([], rest) == rest
  {
    assert [] + rest.0 == rest.0;
  }

  lemma DecodeStep(frames: seq<Frame>, s: bytes, ending: Failure)
    ensures Behind(frames, DecodeAll(s, ending)) ==
            match Decode(s, ending)
            case Err(e) => (frames, e)
            case Ok((frame, rest)) => Behind(frames + [frame], DecodeAll(rest, ending))
    ensures Decode(s, ending).Ok? ==> |Decode(s, ending).value.1| < |s|
  {
    DecodeFirst(s, ending);
    hide Decode, DecodeAll;
    assert frames + [] == frames;
    if Decode(s, ending).Ok? {
      var (frame, rest) := Decode(s, ending).value;
      var others := DecodeAll(rest, ending).0;
      assert frames + ([frame] + others) == frames + [frame] + others;
    }
  }

  lemma DecodeFirst(s: bytes, ending: Failure)
    ensures Decode(s, ending).Err? ==> DecodeAll(s, ending) == ([], Decode(s, ending).error)
    ensures Decode(s, ending).Ok? ==>
              var next := Decode(s, ending).value;
              var others := DecodeAll(next.1, ending);
              |next.1| < |s| && DecodeAll(s, ending) == ([next.0] + others.0, others.1)
  {
    if Decode(s, ending).Ok? {
      DecodeShrinks(s, ending);
    }
    hide Decode;
  }

  // ---------------------------------------------------------------- the reader

  function Flatten(chunks: seq<bytes>): bytes
  {
    if chunks == [] then [] else chunks[0] + Flatten(chunks[1..])
  }

  class Reader {
    var buf: bytes
    var pos: nat
    /** What the connection still delivers, piece by piece, and how it ends. */
    var unread: seq<bytes>
    const ending: Failure

    ghost predicate Valid()
      reads this
    {
      pos <= |buf| && forall c <- unread :: 1 <= |c| <= CHUNK
    }

    /** The octets not yet consumed: those buffered, then those to come. */
    ghost function Stream(): bytes
      reads this
      requires Valid()
    {
      buf[pos..] + Flatten(unread)
    }

    constructor (pending: bytes, unread: seq<bytes>, ending: Failure)
      requires forall c <- unread :: 1 <= |c| <= CHUNK
      ensures Valid() && this.ending == ending && Stream() == pending + Flatten(unread)
    {
      this.buf, this.pos, this.unread, this.ending := pending, 0, unread, ending;
    }

    method Compact()
      requires Valid()
      modifies this`buf, this`pos
      ensures Valid() && pos == 0 && buf == old(buf[pos..]) && Stream() == old(Stream())
    {
      if pos == 0 {
        return;
      }
      if pos == |buf| {
        buf, pos := [], 0;
        return;
      }
      buf := buf[pos..];
      pos := 0;
    }

    /** Reads until `n` octets are buffered, and fails just when the whole stream is shorter. */
    method Need(n: nat) returns (r: Result<(), Failure>)
      requires Valid()
      modifies this`buf, this`pos, this`unread
      ensures Valid() && Stream() == old(Stream())
      ensures r == if |old(Stream())| < n then Err(ending) else Ok(())
      ensures r.Ok? ==> |buf| - pos >= n
    {
      while |buf| - pos < n
        invariant Valid() && Stream() == old(Stream())
        decreases |unread|
      {
        Compact();
        if unread == [] {
          return Err(ending);
        }
        var chunk := unread[0];
        assert Stream() == buf + (chunk + Flatten(unread[1..]));
        buf, unread := buf + chunk, unread[1..];
      }
      return Ok(());
    }

    method Take(n: nat) returns (r: Result<bytes, Failure>)
      requires Valid()
      modifies this`buf, this`pos, this`unread
      ensures Valid()
      ensures r == if |old(Stream())| < n then Err(ending) else Ok(old(Stream())[..n])
      ensures r.Ok? ==> Stream() == old(Stream())[n..]
    {
      var enough := Need(n);
      if enough.Err? {
        return Err(enough.error);
      }
      var out := buf[pos..pos + n];
      assert buf[pos..] == out + buf[pos + n..];
      assert Stream() == out + (buf[pos + n..] + Flatten(unread));
      pos := pos + n;
      return Ok(out);
    }

    /** The extended length behind a length octet of 126 or 127. */
    method TakeLength(code: nat) returns (r: Result<nat, Failure>)
      requires Valid()
      modifies this`buf, this`pos, this`unread
      ensures Valid()
      ensures var size := if code == 126 then 2 else if code == 127 then 8 else 0;
              && r == (if size == 0 then Ok(code)
                       else if |old(Stream())| < size then Err(ending)
                       else Ok(BeValue(old(Stream())[..size])))
              && (r.Ok? ==> Stream() == old(Stream())[size..])
    {
      if code == 126 {
        var e :- Take(2);
        PairValue(e);
        return Ok(e[0] as int * 256 + e[1] as int);
      }
      if code == 127 {
        var e :- Take(8);
        var n: nat := 0;
        for i := 0 to 8
          invariant n == BeValue(e[..i])
        {
          assert e[..i + 1][..i] == e[..i];
          n := n * 256 + e[i] as int;
        }
        assert e[..8] == e;
        return Ok(n);
      }
      return Ok(code);
    }

    /** The next frame is the first frame of the stream, however the connection has cut it up. */
    method NextFrame() returns (r: Result<Frame, Failure>)
      requires Valid()
      modifies this`buf, this`pos, this`unread
      ensures Valid()
      ensures match Decode(old(Stream()), ending)
              case Err(e) => r == Err(e)
              case Ok((frame, rest)) => r == Ok(frame) && Stream() == rest
    {
      hide DecodeBody, BeValue;
      ghost var s := Stream();
      var h :- Take(2);
      ghost var rest := Stream();
      assert rest == s[2..] && (|s| >= 4 ==> rest[..2] == s[2..4] && rest[2..] == s[4..]);
      assert |s| >= 10 ==> rest[..8] == s[2..10] && rest[8..] == s[10..];
      var n :- TakeLength(h[1] % 128);
      r := TakeBody(h[0] % 16, h[1] >= 128, n);
    }

    /** Successive calls until one fails return exactly the frames of the stream, and why there is no further one. */
    method ReadAll() returns (frames: seq<Frame>, failure: Failure)
      requires Valid()
      modifies this`buf, this`pos, this`unread
      ensures Valid()
      ensures (frames, failure) == DecodeAll(old(Stream()), ending)
    {
      hide Decode, Behind;
      ghost var whole := DecodeAll(Stream(), ending);
      frames := [];
      NothingBefore(whole);
      while true
        invariant Valid() && whole == Behind(frames, DecodeAll(Stream(), ending))
        decreases |Stream()|
      {
        DecodeStep(frames, Stream(), ending);
        var r := NextFrame();
        if r.Err? {
          return frames, r.error;
        }
        frames := frames + [r.value];
      }
    }

    method TakeBody(opcode: nat, masked: bool, n: nat) returns (r: Result<Frame, Failure>)
      requires Valid()
      modifies this`buf, this`pos, this`unread
      ensures Valid()
      ensures match DecodeBody(old(Stream()), opcode, masked, n, ending)
              case Err(e) => r == Err(e)
              case Ok((frame, rest)) => r == Ok(frame) && Stream() == rest
    {
      if n > MAX_PAYLOAD {
        return Err(FrameTooLarge);
      }
      ghost var s := Stream();
      var mask: bytes := [0, 0, 0, 0];
      if masked {
        mask :- Take(4);
      }
      var payload :- Take(n);
      if masked {
        assert s[4..][..n] == s[4..4 + n] && s[4..][n..] == s[4 + n..];
        payload := Unmask(payload, mask);
      }
      return Ok(Frame(opcode, payload));
    }

    method Unmask(payload: bytes, mask: bytes) returns (r: bytes)
      requires |mask| == 4
      ensures r == Masked(payload, mask)
    {
      r := payload;
      for i := 0 to |payload|
        invariant |r| == |payload|
        invariant forall k :: 0 <= k < i ==> r[k] == Xor(payload[k], mask[k % 4])
        invariant forall k :: i <= k < |payload| ==> r[k] == payload[k]
      {
        r := r[i := Xor(r[i], mask[i % 4])];
      }
    }
  }

  // ---------------------------------------------------------------- frames as they are sent

  /** A frame to be sent: the high half of its first octet, its opcode, its masking key if it has one, its payload. */
  datatype Sent = Sent(high: nat, opcode: nat, key: Option<bytes>, payload: bytes)

  predicate Sendable(f: Sent)
  {
    f.high < 16 && f.opcode < 16 && (f.key.Some? ==> |f.key.value| == 4) && |f.payload| <= MAX_PAYLOAD
  }

  /** The length octets of section 5.2 of RFC 6455: seven bits, or sixteen, or sixty-four. */
  function LengthOctets(n: nat, masked: bool): bytes
    requires n <= MAX_PAYLOAD
  {
    var flag := if masked then 128 else 0;
    if n < 126 then [flag + n] else if n < 0x10000 then [flag + 126] + BigEndian(n, 2) else [flag + 127] + BigEndian(n, 8)
  }

  function FrameOctets(f: Sent): bytes
    requires Sendable(f)
  {
    [16 * f.high + f.opcode] + LengthOctets(|f.payload|, f.key.Some?)
    + match f.key case None => f.payload case Some(key) => key + Masked(f.payload, key)
  }

  lemma BodyReadsBack(f: Sent, t: bytes, ending: Failure)
    requires Sendable(f)
    ensures var body := match f.key case None => f.payload case Some(key) => key + Masked(f.payload, key);
            DecodeBody(body + t, f.opcode, f.key.Some?, |f.payload|, ending) == Ok((Frame(f.opcode, f.payload), t))
  {
    match f.key {
      case None =>
        var s := f.payload + t;
        assert s[0..|f.payload|] == f.payload && s[|f.payload|..] == t;
      case Some(key) =>
        var m := Masked(f.payload, key);
        var s := key + m + t;
        assert s[..4] == key && s[4..4 + |m|] == m && s[4 + |m|..] == t;
        MaskedTwice(f.payload, key);
    }
  }

  lemma LengthPowers()
    ensures Pow256(2) == 0x10000 && Pow256(8) > MAX_PAYLOAD
  {
    assert Pow256(4) == 256 * Pow256(3) == 0x10000 * Pow256(2);
    assert Pow256(8) == 256 * Pow256(7) == 0x10000 * Pow256(6) == 0x1000000 * Pow256(5) == 0x1_0000_0000 * Pow256(4);
  }

  /** A frame that was sent is read back, unmasked, and what follows it is left. */
  lemma {:induction false} FrameReadsBack(f: Sent, t: bytes, ending: Failure)
    requires Sendable(f)
    ensures Decode(FrameOctets(f) + t, ending) == Ok((Frame(f.opcode, f.payload), t))
  {
    hide DecodeBody, Masked, BigEndian, BeValue;
    var n := |f.payload|;
    var body := match f.key case None => f.payload case Some(key) => key + Masked(f.payload, key);
    var s := FrameOctets(f) + t;
    BodyReadsBack(f, t, ending);
    LengthPowers();
    HeadPlaces(16 * f.high + f.opcode, LengthOctets(n, f.key.Some?), body, t);
    if n < 126 {
    } else if n < 0x10000 {
      BigEndianValue(n, 2);
    } else {
      BigEndianValue(n, 8);
    }
  }

  lemma HeadPlaces(first: byte, length: bytes, body: bytes, t: bytes)
    requires |length| >= 1
    ensures var s := [first] + length + body + t;
            && s[0] == first && s[1] == length[0] && s[2..1 + |length|] == length[1..] && s[1 + |length|..] == body + t
  {
  }

  function FramesOctets(fs: seq<Sent>): bytes
    requires forall i :: 0 <= i < |fs| ==> Sendable(fs[i])
  {
    if fs == [] then [] else FrameOctets(fs[0]) + FramesOctets(fs[1..])
  }

  function FramesOf(fs: seq<Sent>): seq<Frame>
  {
    if fs == [] then [] else [Frame(fs[0].opcode, fs[0].payload)] + FramesOf(fs[1..])
  }

  /** A stream of frames and nothing else is read as exactly those frames. */
  lemma {:induction false} StreamReadsBack(fs: seq<Sent>, ending: Failure)
    requires forall i :: 0 <= i < |fs| ==> Sendable(fs[i])
    ensures DecodeAll(FramesOctets(fs), ending) == (FramesOf(fs), ending)
    decreases |fs|
  {
    hide FrameOctets, Decode;
    if fs == [] {
      assert Decode([], ending) == Err(ending) by {
        NothingToDecode(ending);
      }
    } else {
      FrameReadsBack(fs[0], FramesOctets(fs[1..]), ending);
      StreamReadsBack(fs[1..], ending);
    }
  }

  lemma NothingToDecode(ending: Failure)
    ensures Decode([], ending) == Err(ending)
  {
  }
}
