/**
 * The byte tunnel: what is read from a TCP stream is compressed chunk by chunk and sent as
 * frames, each a 4-byte big-endian length and a body. Both ends run the same two loops.
 */
module TunnelFrames {
  import opened Wrappers
  import opened Bytes
  import opened Sequences

  const READ_BUFFER: nat := 16 * 1024
  const MAX_DECOMPRESSED: nat := 128 * 1024

  /** LZ4, a library: `decompress` is given a limit on the size of its output. */
  datatype Lz4 = Lz4(
    compress: seq<byte> -> seq<byte>,
    decompress: (seq<byte>, nat) -> Option<seq<byte>>)

  /** What is read fits a frame when compressed, and decompresses to what it was. */
  ghost predicate Sound(z: Lz4) {
    forall b: seq<byte> | 1 <= |b| <= READ_BUFFER ::
      && |z.compress(b)| < U32_LIMIT
      && z.decompress(z.compress(b), MAX_DECOMPRESSED) == Some(b)
  }

  /**
   * How a stream of frames ends: without an error, in the middle of a body, on garbage, or
   * because it could not be read any further.
   */
  datatype End = Clean | Truncated | Corrupt | ReadFailed

  datatype Decoded = Decoded(out: seq<byte>, end: End)

  /** What one read returns: between one byte and a full buffer. */
  type Chunk = b: seq<byte> | 1 <= |b| <= READ_BUFFER witness [0]

  // Sending ---------------------------------------------------------------------------------

  /** The length is cast to 32 bits. */
  function Frame(z: Lz4, chunk: Chunk): (f: seq<byte>) {
    var body := z.compress(chunk);
    ToBe(|body| % U32_LIMIT, 4) + body
  }

  function Frames(z: Lz4, chunks: seq<Chunk>): (wire: seq<byte>) {
    if chunks == [] then [] else Frame(z, chunks[0]) + Frames(z, chunks[1..])
  }

  function Concat(chunks: seq<Chunk>): (bytes: seq<byte>) {
    if chunks == [] then [] else chunks[0] + Concat(chunks[1..])
  }

  /** Reads until the end of the stream, or until a read fails. */
  method CompressAndForward(z: Lz4, chunks: seq<Chunk>, readFails: bool)
    returns (wire: seq<byte>, ok: bool)
    ensures wire == Frames(z, chunks) && ok == !readFails
  {
    wire := [];
    for i := 0 to |chunks|
      invariant wire == Frames(z, chunks[..i])
    {
      var compressed := z.compress(chunks[i]);
      var len := |compressed| % U32_LIMIT;
      NextFrame(z, chunks, i);
      Assoc(wire, ToBe(len, 4), compressed);
      wire := wire + ToBe(len, 4);
      wire := wire + compressed;
    }
    assert chunks[..|chunks|] == chunks;
    ok := !readFails;
  }

  lemma {:induction false} FramesOfSum(z: Lz4, xs: seq<Chunk>, ys: seq<Chunk>)
    ensures Frames(z, xs + ys) == Frames(z, xs) + Frames(z, ys)
    decreases |xs|
  {
    if xs == [] {
      assert xs + ys == ys;
    } else {
      assert (xs + ys)[0] == xs[0] && (xs + ys)[1..] == xs[1..] + ys;
      FramesOfSum(z, xs[1..], ys);
    }
  }

  lemma FramesSplit(z: Lz4, chunks: seq<Chunk>, n: nat)
    requires n <= |chunks|
    ensures Frames(z, chunks) == Frames(z, chunks[..n]) + Frames(z, chunks[n..])
  {
    assert chunks == chunks[..n] + chunks[n..];
    FramesOfSum(z, chunks[..n], chunks[n..]);
  }

  // Receiving -------------------------------------------------------------------------------

  function BodyLength(wire: seq<byte>): (n: nat)
    requires |wire| >= 4
  {
    FromBe(wire[..4])
  }

  function Decode(z: Lz4, wire: seq<byte>): (d: Decoded)
    decreases |wire|
  {
    if |wire| < 4 then Decoded([], Clean)
    else
      var end := 4 + BodyLength(wire);
      if |wire| < end then Decoded([], Truncated)
      else
        match z.decompress(wire[4..end], MAX_DECOMPRESSED)
        case None => Decoded([], Corrupt)
        case Some(bytes) =>
          var rest := Decode(z, wire[end..]);
          Decoded(bytes + rest.out, rest.end)
  }

  /** When reading fails after these bytes, the bytes before that are delivered all the same. */
  function DecodeUntil(z: Lz4, wire: seq<byte>, readFails: bool): (d: Decoded) {
    var d := Decode(z, wire);
    if readFails && !d.end.Corrupt? then Decoded(d.out, ReadFailed) else d
  }

  /** Then nothing is delivered that would not have been, and it is not taken for the end. */
  lemma FailedRead(z: Lz4, wire: seq<byte>)
    ensures DecodeUntil(z, wire, false) == Decode(z, wire)
    ensures DecodeUntil(z, wire, true).out == Decode(z, wire).out
    ensures DecodeUntil(z, wire, true).end.Corrupt? <==> Decode(z, wire).end.Corrupt?
    ensures DecodeUntil(z, wire, true).end != Clean && DecodeUntil(z, wire, true).end != Truncated
    ensures DecodeUntil(z, wire, true).end.Corrupt? || DecodeUntil(z, wire, true).end.ReadFailed?
  {
    EndIsNotFailure(z, wire);
  }

  lemma {:induction false} EndIsNotFailure(z: Lz4, wire: seq<byte>)
    ensures !Decode(z, wire).end.ReadFailed?
    decreases |wire|
  {
    if |wire| >= 4 && |wire| >= 4 + BodyLength(wire) {
      EndIsNotFailure(z, wire[4 + BodyLength(wire)..]);
    }
  }

  /** A short read of a length ends the loop, a short read of a body is an error. */
  method DecompressAndForward(z: Lz4, wire: seq<byte>, readFails: bool)
    returns (out: seq<byte>, end: End)
    ensures Decoded(out, end) == DecodeUntil(z, wire, readFails)
  {
    out := [];
    var rest := wire;
    while true
      invariant var d := Decode(z, rest); Decode(z, wire) == Decoded(out + d.out, d.end)
      decreases |rest|
    {
      if |rest| < 4 {
        return out, if readFails then ReadFailed else Clean;
      }
      var len := FromBe(rest[..4]);
      if |rest| - 4 < len {
        return out, if readFails then ReadFailed else Truncated;
      }
      var decompressed := z.decompress(rest[4..4 + len], MAX_DECOMPRESSED);
      if decompressed.None? {
        return out, Corrupt;
      }
      Assoc(out, decompressed.value, Decode(z, rest[4 + len..]).out);
      out := out + decompressed.value;
      rest := rest[4 + len..];
    }
  }

  // What the two loops promise together -----------------------------------------------------

  lemma Pieces(head: seq<byte>, body: seq<byte>, tail: seq<byte>)
    ensures var wire := head + body + tail;
      && wire[..|head|] == head && wire[|head|..|head| + |body|] == body
      && wire[|head| + |body|..] == tail
  {}

  lemma FrameHeader(z: Lz4, chunk: Chunk, tail: seq<byte>)
    requires Sound(z)
    ensures var wire, body := Frame(z, chunk) + tail, z.compress(chunk);
      && |wire| >= 4 && BodyLength(wire) == |body| && |wire| == 4 + |body| + |tail|
      && wire[4..4 + |body|] == body && wire[4 + |body|..] == tail
  {
    var body := z.compress(chunk);
    var head := ToBe(|body| % U32_LIMIT, 4);
    HeaderValue(|body|);
    Pieces(head, body, tail);
    assert (Frame(z, chunk) + tail)[..4] == head;
  }

  lemma HeaderValue(n: nat)
    requires n < U32_LIMIT
    ensures FromBe(ToBe(n % U32_LIMIT, 4)) == n
  {
    assert n % U32_LIMIT == n;
    Widths();
    BeRoundTrip(n, 4);
  }

  lemma DecodeFrame(z: Lz4, chunk: Chunk, tail: seq<byte>)
    requires Sound(z)
    ensures var rest := Decode(z, tail);
            Decode(z, Frame(z, chunk) + tail) == Decoded(chunk + rest.out, rest.end)
  {
    FrameHeader(z, chunk, tail);
  }

  /** Frames are decoded to what was read, and whatever follows them is decoded after that. */
  lemma {:induction false} DecodeFrames(z: Lz4, chunks: seq<Chunk>, tail: seq<byte>)
    requires Sound(z)
    ensures var rest := Decode(z, tail);
            Decode(z, Frames(z, chunks) + tail) == Decoded(Concat(chunks) + rest.out, rest.end)
    decreases |chunks|
  {
    var rest := Decode(z, tail);
    if chunks == [] {
      assert Frames(z, chunks) + tail == tail;
      assert Concat(chunks) + rest.out == rest.out;
    } else {
      var wire := Frames(z, chunks[1..]) + tail;
      DecodeFrame(z, chunks[0], wire);
      DecodeFrames(z, chunks[1..], tail);
      Assoc(Frame(z, chunks[0]), Frames(z, chunks[1..]), tail);
      Assoc(chunks[0], Concat(chunks[1..]), rest.out);
    }
  }

  /** The tunnel delivers the bytes it was given, however they were chunked. */
  lemma StreamIsPreserved(z: Lz4, chunks: seq<Chunk>)
    requires Sound(z)
    ensures Decode(z, Frames(z, chunks)) == Decoded(Concat(chunks), Clean)
  {
    DecodeFrames(z, chunks, []);
    assert Frames(z, chunks) + [] == Frames(z, chunks);
  }

  lemma DecodePartialFrame(z: Lz4, chunk: Chunk, k: nat)
    requires Sound(z) && k < |Frame(z, chunk)|
    ensures Decode(z, Frame(z, chunk)[..k]) == Decoded([], if k < 4 then Clean else Truncated)
  {
    FrameHeader(z, chunk, []);
    assert Frame(z, chunk) + [] == Frame(z, chunk);
    if k >= 4 {
      assert Frame(z, chunk)[..k][..4] == Frame(z, chunk)[..4];
    }
  }

  /** `n` frames are complete in the first `k` bytes and no more. */
  ghost predicate CutAt(z: Lz4, chunks: seq<Chunk>, k: nat, n: nat) {
    && n <= |chunks| && |Frames(z, chunks[..n])| <= k <= |Frames(z, chunks)|
    && (n < |chunks| ==> k < |Frames(z, chunks[..n + 1])|)
  }

  /** Every cut falls somewhere: the frames from the `m`-th on are searched for it. */
  lemma {:induction false} EveryCut(z: Lz4, chunks: seq<Chunk>, k: nat, m: nat) returns (n: nat)
    requires m <= |chunks| && |Frames(z, chunks[..m])| <= k <= |Frames(z, chunks)|
    ensures CutAt(z, chunks, k, n)
    decreases |chunks| - m
  {
    if m == |chunks| || k < |Frames(z, chunks[..m + 1])| {
      n := m;
    } else {
      n := EveryCut(z, chunks, k, m + 1);
    }
  }

  /**
   * When the stream is cut, exactly the complete frames are delivered. The end is clean when
   * the cut is between frames or inside a length, and an error when it is inside a body.
   */
  lemma CutStream(z: Lz4, chunks: seq<Chunk>, k: nat, n: nat)
    requires Sound(z) && CutAt(z, chunks, k, n)
    ensures Decode(z, Frames(z, chunks)[..k])
            == Decoded(Concat(chunks[..n]),
                       if k - |Frames(z, chunks[..n])| < 4 then Clean else Truncated)
  {
    var start := |Frames(z, chunks[..n])|;
    var tail := CutTail(z, chunks, k, n);
    DecodeFrames(z, chunks[..n], tail);
    if n < |chunks| {
      DecodePartialFrame(z, chunks[n], k - start);
    }
    assert Concat(chunks[..n]) + [] == Concat(chunks[..n]);
  }

  /** What is left after the complete frames: the beginning of the next one, if there is one. */
  lemma CutTail(z: Lz4, chunks: seq<Chunk>, k: nat, n: nat) returns (tail: seq<byte>)
    requires CutAt(z, chunks, k, n)
    ensures Frames(z, chunks)[..k] == Frames(z, chunks[..n]) + tail
    ensures |tail| == k - |Frames(z, chunks[..n])|
    ensures n == |chunks| ==> tail == []
    ensures n < |chunks| ==>
      |tail| < |Frame(z, chunks[n])| && tail == Frame(z, chunks[n])[..|tail|]
  {
    var sent, left := Frames(z, chunks[..n]), Frames(z, chunks[n..]);
    FramesSplit(z, chunks, n);
    tail := left[..k - |sent|];
    Prefix(sent, left, k);
    if n < |chunks| {
      NextFrame(z, chunks, n);
      Prefix(Frame(z, chunks[n]), Frames(z, chunks[n + 1..]), |tail|);
    }
  }

  lemma Prefix(a: seq<byte>, b: seq<byte>, k: nat)
    requires k <= |a + b|
    ensures k >= |a| ==> (a + b)[..k] == a + b[..k - |a|]
    ensures k <= |a| ==> (a + b)[..k] == a[..k]
  {}

  lemma NextFrame(z: Lz4, chunks: seq<Chunk>, n: nat)
    requires n < |chunks|
    ensures Frames(z, chunks[..n + 1]) == Frames(z, chunks[..n]) + Frame(z, chunks[n])
    ensures Frames(z, chunks[n..]) == Frame(z, chunks[n]) + Frames(z, chunks[n + 1..])
  {
    var one := [chunks[n]];
    assert one[1..] == [];
    FramesOfSum(z, chunks[..n], one);
    assert chunks[..n + 1] == chunks[..n] + one;
    assert chunks[n..][1..] == chunks[n + 1..];
  }

  /** Whatever the bytes are, those that come first decide what is delivered first. */
  lemma {:induction false} PrefixDeliversPrefix(z: Lz4, wire: seq<byte>, k: nat)
    requires k <= |wire|
    ensures Decode(z, wire[..k]).out <= Decode(z, wire).out
    decreases |wire|
  {
    if k >= 4 {
      assert wire[..k][..4] == wire[..4];
      var end := 4 + BodyLength(wire);
      if end <= k {
        assert wire[..k][4..end] == wire[4..end];
        assert wire[..k][end..] == wire[end..][..k - end];
        PrefixDeliversPrefix(z, wire[end..], k - end);
      }
    }
  }
}
