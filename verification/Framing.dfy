/** Length-prefixed frames on a byte stream that may be cut anywhere. */
module Framing {
  import opened Prelude
  import opened Bytes
  import opened Sequences

  const MAX_FRAME_SIZE_BYTES: nat := 8 * 1024 * 1024
  const U32_MODULUS: nat := 0x1_0000_0000

  type Frame = seq<byte>

  /** `write_frame`: the length as u32, then the bytes; the cast drops the high bits of the length. */
  function FrameBytes(frame: Frame): seq<byte> {
    BeBytes(|frame| % U32_MODULUS, 4) + frame
  }

  function EncodeFrames(frames: seq<Frame>): seq<byte> {
    if frames == [] then [] else FrameBytes(frames[0]) + EncodeFrames(frames[1..])
  }

  datatype FrameRead = Complete(frame: Frame) | StreamClosed | Oversized | Truncated

  /** One read from the bytes that will ever arrive: end of stream inside a header reads as closed. */
  function ReadFrame(input: seq<byte>): (r: FrameRead)
    ensures r.Complete? ==> 4 + |r.frame| <= |input|
  {
    if |input| < 4 then StreamClosed
    else
      var length := BeValue(input[..4]);
      if length > MAX_FRAME_SIZE_BYTES then Oversized
      else if |input| < 4 + length then Truncated
      else Complete(input[4..4 + length])
  }

  /** The reading side of a TCP stream: the bytes not read yet. */
  class ByteStream {
    var unread: seq<byte>

    constructor (bytes: seq<byte>)
      ensures unread == bytes
    {
      unread := bytes;
    }

    /** `read_frame_bytes`. */
    method ReadFrameBytes() returns (r: FrameRead)
      modifies this
      ensures r == ReadFrame(old(unread))
      ensures r.Complete? ==> unread == old(unread)[4 + |r.frame|..]
      ensures r.Oversized? ==> unread == old(unread)[4..]
      ensures r.StreamClosed? || r.Truncated? ==> unread == []
    {
      if |unread| < 4 {
        unread := [];
        return StreamClosed;
      }
      var length := BeValue(unread[..4]);
      unread := unread[4..];
      if length > MAX_FRAME_SIZE_BYTES {
        return Oversized;
      }
      if |unread| < length {
        unread := [];
        return Truncated;
      }
      r := Complete(unread[..length]);
      unread := unread[length..];
    }
  }

  datatype Transcript = Transcript(frames: seq<Frame>, end: FrameRead)

  /** Everything a reader gets out of a stream, and how reading stops. */
  function ReadAll(input: seq<byte>): Transcript
    decreases |input|
  {
    var r := ReadFrame(input);
    if r.Complete? then
      var rest := ReadAll(input[4 + |r.frame|..]);
      Transcript([r.frame] + rest.frames, rest.end)
    else Transcript([], r)
  }

  /** How many frames a reader recovers from the first `cut` bytes: those complete and not oversized. */
  function Recovered(frames: seq<Frame>, cut: nat): (n: nat)
    ensures n <= |frames|
  {
    if frames == [] || |frames[0]| > MAX_FRAME_SIZE_BYTES || cut < 4 + |frames[0]| then 0
    else 1 + Recovered(frames[1..], cut - 4 - |frames[0]|)
  }

  ghost predicate FitHeader(frames: seq<Frame>) {
    forall i :: 0 <= i < |frames| ==> |frames[i]| < U32_MODULUS
  }

  ghost predicate WithinLimit(frames: seq<Frame>) {
    forall i :: 0 <= i < |frames| ==> |frames[i]| <= MAX_FRAME_SIZE_BYTES
  }

  /**
   The reader stops at the first frame over the size limit: the truncated length in its header is over
   the limit too. Frames below 2^32 bytes always have this.
   */
  predicate HeadersTell(frames: seq<Frame>) {
    frames != [] ==>
      if |frames[0]| <= MAX_FRAME_SIZE_BYTES then HeadersTell(frames[1..])
      else |frames[0]| % U32_MODULUS > MAX_FRAME_SIZE_BYTES
  }

  lemma {:induction false} FittingHeadersTell(frames: seq<Frame>)
    requires FitHeader(frames)
    ensures HeadersTell(frames)
  {
    if frames != [] {
      FittingHeadersTell(frames[1..]);
    }
  }

  lemma FrameBytesLength(frame: Frame)
    ensures |FrameBytes(frame)| == 4 + |frame|
    ensures BeValue(FrameBytes(frame)[..4]) == |frame| % U32_MODULUS
    ensures FrameBytes(frame)[4..] == frame
  {
    Pow256Values();
    BeRoundTrip(|frame| % U32_MODULUS, 4);
    assert FrameBytes(frame)[..4] == BeBytes(|frame| % U32_MODULUS, 4);
  }

  lemma HeaderValue(frame: Frame, tail: seq<byte>, cut: nat)
    requires 4 <= cut <= |FrameBytes(frame) + tail|
    ensures BeValue((FrameBytes(frame) + tail)[..cut][..4]) == |frame| % U32_MODULUS
  {
    FrameBytesLength(frame);
    assert (FrameBytes(frame) + tail)[..cut][..4] == FrameBytes(frame)[..4];
  }

  /** What the first read makes of a cut stream. */
  lemma ReadHead(frame: Frame, tail: seq<byte>, cut: nat)
    requires cut <= |FrameBytes(frame) + tail|
    requires |frame| <= MAX_FRAME_SIZE_BYTES || |frame| % U32_MODULUS > MAX_FRAME_SIZE_BYTES
    ensures |FrameBytes(frame)| == 4 + |frame|
    ensures var input := (FrameBytes(frame) + tail)[..cut];
            if |frame| > MAX_FRAME_SIZE_BYTES || cut < 4 + |frame| then !ReadFrame(input).Complete?
            else ReadFrame(input) == Complete(frame) && input[4 + |frame|..] == tail[..cut - 4 - |frame|]
  {
    FrameBytesLength(frame);
    var header := FrameBytes(frame)[..4];
    if cut >= 4 {
      HeaderValue(frame, tail, cut);
      if cut >= 4 + |frame| {
        SplitSlices(FrameBytes(frame), 4);
        assert FrameBytes(frame) == header + frame;
        hide FrameBytes, BeValue;
        WholeFrame(header, frame, tail, cut);
      }
    }
  }

  /** A frame that arrived whole, cut out of the stream. */
  lemma WholeFrame(header: seq<byte>, frame: Frame, tail: seq<byte>, cut: nat)
    requires |header| == 4 && 4 + |frame| <= cut <= 4 + |frame| + |tail|
    ensures var input := ((header + frame) + tail)[..cut];
            input[4..4 + |frame|] == frame && input[4 + |frame|..] == tail[..cut - 4 - |frame|]
  {
  }

  /** Reading any cut of a written stream recovers a prefix of the frames. */
  lemma {:induction false} CutStream(frames: seq<Frame>, cut: nat)
    requires HeadersTell(frames) && cut <= |EncodeFrames(frames)|
    ensures ReadAll(EncodeFrames(frames)[..cut]).frames == frames[..Recovered(frames, cut)]
    decreases |frames|
  {
    hide FrameBytes, ReadFrame;
    if frames != [] {
      var f, tail := frames[0], EncodeFrames(frames[1..]);
      FrameBytesLength(f);
      ReadHead(f, tail, cut);
      if |f| <= MAX_FRAME_SIZE_BYTES && cut >= 4 + |f| {
        CutStream(frames[1..], cut - 4 - |f|);
        assert frames[..Recovered(frames, cut)] == [f] + frames[1..][..Recovered(frames[1..], cut - 4 - |f|)];
      }
    }
  }

  /** Within the size limit, the recovered frames are exactly those that arrived whole. */
  lemma {:induction false} RecoveredExact(frames: seq<Frame>, cut: nat)
    requires WithinLimit(frames) && cut <= |EncodeFrames(frames)|
    ensures var n := Recovered(frames, cut);
            && |EncodeFrames(frames[..n])| <= cut
            && (n < |frames| ==> cut < |EncodeFrames(frames[..n + 1])|)
    decreases |frames|
  {
    if frames != [] {
      var f := frames[0];
      FrameBytesLength(f);
      if cut < 4 + |f| {
        assert frames[..1] == [f] && EncodeFrames([]) == [];
        assert EncodeFrames([f]) == FrameBytes(f) + EncodeFrames([f][1..]);
      } else {
        var n := Recovered(frames[1..], cut - 4 - |f|);
        RecoveredExact(frames[1..], cut - 4 - |f|);
        assert frames[..n + 1][1..] == frames[1..][..n];
        if n + 1 < |frames| {
          assert frames[..n + 2][1..] == frames[1..][..n + 1];
        }
      }
    }
  }

  /** Recovering every frame takes every byte. */
  lemma {:induction false} RecoveredWhole(frames: seq<Frame>, cut: nat)
    requires Recovered(frames, cut) == |frames|
    ensures cut >= |EncodeFrames(frames)| && WithinLimit(frames)
    decreases |frames|
  {
    if frames != [] {
      FrameBytesLength(frames[0]);
      RecoveredWhole(frames[1..], cut - 4 - |frames[0]|);
      assert forall i :: 1 <= i < |frames| ==> frames[i] == frames[1..][i - 1];
    }
  }

  /** How reading a cut stream ends: quietly between or inside headers, else inside a frame. */
  lemma {:induction false} CutEnd(frames: seq<Frame>, cut: nat)
    requires WithinLimit(frames) && cut <= |EncodeFrames(frames)|
    ensures var rest := cut - |EncodeFrames(frames[..Recovered(frames, cut)])|;
            ReadAll(EncodeFrames(frames)[..cut]).end == if rest < 4 then StreamClosed else Truncated
    decreases |frames|
  {
    hide FrameBytes, ReadFrame;
    if frames == [] {
      NothingToRead(EncodeFrames(frames)[..cut]);
    } else {
      var f, tail := frames[0], EncodeFrames(frames[1..]);
      FrameBytesLength(f);
      ReadHead(f, tail, cut);
      if cut >= 4 + |f| {
        var n := Recovered(frames[1..], cut - 4 - |f|);
        CutEnd(frames[1..], cut - 4 - |f|);
        assert frames[..n + 1][1..] == frames[1..][..n];
      } else {
        StoppedShort(f, tail, cut);
      }
    }
  }

  lemma NothingToRead(input: seq<byte>)
    requires |input| < 4
    ensures ReadAll(input) == Transcript([], StreamClosed)
  {
  }

  lemma StoppedShort(frame: Frame, tail: seq<byte>, cut: nat)
    requires |frame| <= MAX_FRAME_SIZE_BYTES && cut < 4 + |frame| && cut <= |FrameBytes(frame) + tail|
    ensures ReadAll((FrameBytes(frame) + tail)[..cut]) == Transcript([], if cut < 4 then StreamClosed else Truncated)
  {
    FrameBytesLength(frame);
    if cut >= 4 {
      HeaderValue(frame, tail, cut);
    }
  }

  /** A stream with an oversized frame whose header tells ends there, as oversized. */
  lemma OversizedEnds(frames: seq<Frame>, i: nat)
    requires i < |frames| && WithinLimit(frames[..i]) && |frames[i]| % U32_MODULUS > MAX_FRAME_SIZE_BYTES
    ensures ReadAll(EncodeFrames(frames)) == Transcript(frames[..i], Oversized)
  {
    hide ReadFrame;
    ReadUpTo(frames, i);
    OversizedHead(frames[i], EncodeFrames(frames[i + 1..]));
  }

  lemma OversizedHead(frame: Frame, tail: seq<byte>)
    requires |frame| % U32_MODULUS > MAX_FRAME_SIZE_BYTES
    ensures ReadAll(FrameBytes(frame) + tail) == Transcript([], Oversized)
  {
    var input := FrameBytes(frame) + tail;
    FrameBytesLength(frame);
    HeaderValue(frame, tail, |input|);
    assert input[..|input|] == input;
  }

  lemma ReadOne(frame: Frame, rest: seq<byte>)
    requires |frame| <= MAX_FRAME_SIZE_BYTES
    ensures ReadAll(FrameBytes(frame) + rest) == Transcript([frame] + ReadAll(rest).frames, ReadAll(rest).end)
  {
    hide FrameBytes, ReadFrame;
    var input := FrameBytes(frame) + rest;
    FrameBytesLength(frame);
    ReadHead(frame, rest, |input|);
    assert input[..|input|] == input;
    assert rest[..|input| - 4 - |frame|] == rest;
  }

  lemma {:induction false} ReadFront(front: seq<Frame>, tail: seq<byte>)
    requires WithinLimit(front)
    ensures ReadAll(EncodeFrames(front) + tail) == Transcript(front + ReadAll(tail).frames, ReadAll(tail).end)
    decreases |front|
  {
    hide FrameBytes, ReadAll;
    if front == [] {
      assert EncodeFrames(front) + tail == tail;
    } else {
      var rest := EncodeFrames(front[1..]) + tail;
      assert EncodeFrames(front) + tail == FrameBytes(front[0]) + rest;
      ReadOne(front[0], rest);
      ReadFront(front[1..], tail);
    }
  }

  lemma {:induction false} EncodeConcat(a: seq<Frame>, b: seq<Frame>)
    ensures EncodeFrames(a + b) == EncodeFrames(a) + EncodeFrames(b)
    decreases |a|
  {
    if a == [] {
      assert a + b == b;
    } else {
      assert (a + b)[1..] == a[1..] + b;
      EncodeConcat(a[1..], b);
    }
  }

  /** The frames before position i are read as written, then reading goes on with that one. */
  lemma ReadUpTo(frames: seq<Frame>, i: nat)
    requires i < |frames| && WithinLimit(frames[..i])
    ensures var t := ReadAll(FrameBytes(frames[i]) + EncodeFrames(frames[i + 1..]));
            ReadAll(EncodeFrames(frames)) == Transcript(frames[..i] + t.frames, t.end)
  {
    hide FrameBytes, ReadAll;
    SplitSlices(frames, i);
    EncodeConcat(frames[..i], frames[i..]);
    assert frames[i..][1..] == frames[i + 1..];
    ReadFront(frames[..i], FrameBytes(frames[i]) + EncodeFrames(frames[i + 1..]));
  }

  lemma OversizedUnreadable(frame: Frame, tail: seq<byte>)
    requires |frame| > MAX_FRAME_SIZE_BYTES
    ensures var t := ReadAll(FrameBytes(frame) + tail);
            t.end == StreamClosed ==> t.frames != [] && t.frames[0] != frame
  {
    var input := FrameBytes(frame) + tail;
    FrameBytesLength(frame);
    HeaderValue(frame, tail, |input|);
    assert input[..|input|] == input;
  }

  /** A stream read to its end gives back the frames written exactly when none exceeds the limit. */
  lemma StreamRoundTripIff(frames: seq<Frame>)
    ensures ReadAll(EncodeFrames(frames)) == Transcript(frames, StreamClosed) <==>
            forall i :: 0 <= i < |frames| ==> |frames[i]| <= 8_388_608
  {
    if WithinLimit(frames) {
      ReadFront(frames, []);
      assert EncodeFrames(frames) + [] == EncodeFrames(frames);
    } else {
      var i := FirstOversized(frames);
      var rest := EncodeFrames(frames[i + 1..]);
      ReadUpTo(frames, i);
      OversizedUnreadable(frames[i], rest);
      hide *;
      var t := ReadAll(FrameBytes(frames[i]) + rest);
      if t.end == StreamClosed {
        assert (frames[..i] + t.frames)[i] == t.frames[0];
      }
    }
  }

  lemma {:induction false} TellingUpTo(frames: seq<Frame>, i: nat)
    requires i < |frames| && WithinLimit(frames[..i]) && |frames[i]| > MAX_FRAME_SIZE_BYTES
    ensures HeadersTell(frames) <==> |frames[i]| % U32_MODULUS > MAX_FRAME_SIZE_BYTES
  {
    if i > 0 {
      assert |frames[..i][0]| <= MAX_FRAME_SIZE_BYTES;
      assert frames[1..][..i - 1] == frames[..i][1..];
      TellingUpTo(frames[1..], i - 1);
    }
  }

  /** A frame whose header holds a short length is read as that many of its bytes. */
  lemma MisreadFrame(frame: Frame, tail: seq<byte>)
    requires |frame| > MAX_FRAME_SIZE_BYTES >= |frame| % U32_MODULUS
    ensures var t := ReadAll(FrameBytes(frame) + tail);
            t.frames != [] && |t.frames[0]| < |frame|
  {
    var input := FrameBytes(frame) + tail;
    FrameBytesLength(frame);
    HeaderValue(frame, tail, |input|);
    assert input[..|input|] == input;
  }

  /** Every cut of a written stream reads as a prefix of its frames exactly when the headers tell. */
  lemma PrefixReadingIff(frames: seq<Frame>)
    ensures (forall cut: nat :: cut <= |EncodeFrames(frames)| ==> ReadAll(EncodeFrames(frames)[..cut]).frames <= frames)
            <==> HeadersTell(frames)
  {
    hide ReadAll, FrameBytes;
    var stream := EncodeFrames(frames);
    if HeadersTell(frames) {
      forall cut: nat | cut <= |stream| ensures ReadAll(stream[..cut]).frames <= frames {
        CutStream(frames, cut);
      }
    } else {
      if WithinLimit(frames) {
        FittingHeadersTell(frames);
      }
      var i := FirstOversized(frames);
      var rest := EncodeFrames(frames[i + 1..]);
      TellingUpTo(frames, i);
      ReadUpTo(frames, i);
      MisreadFrame(frames[i], rest);
      hide *;
      var t := ReadAll(FrameBytes(frames[i]) + rest);
      assert stream[..|stream|] == stream;
      assert (frames[..i] + t.frames)[i] == t.frames[0];
    }
  }

  lemma FirstOversized(frames: seq<Frame>) returns (i: nat)
    requires !WithinLimit(frames)
    ensures i < |frames| && |frames[i]| > MAX_FRAME_SIZE_BYTES && WithinLimit(frames[..i])
  {
    i := 0;
    while |frames[i]| <= MAX_FRAME_SIZE_BYTES
      invariant i < |frames| && WithinLimit(frames[..i])
      decreases |frames| - i
    {
      if i == |frames| - 1 {
        assert WithinLimit(frames);
      }
      i := i + 1;
    }
  }
}
