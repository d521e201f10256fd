/**
 * How the server (server/server.c, process_session_tcp_buffer) and the
 * client (client/app.c, process_tcp_buffer) cut a TCP byte stream into
 * frames: while the buffer holds a whole header and the whole payload its
 * length field declares, the leading frame is handled and removed; an
 * incomplete frame stays in the buffer until more bytes arrive.
 *
 * `Frames` and `Rest` are that cutting as functions of the buffer; the
 * loops of both programs are proved to follow them.
 */
module Framing {
  import opened Protocol
  import opened Encoder

  /** The size of the frame whose header starts the buffer. */
  function FrameSize(buf: seq<byte>): (n: int)
    ensures n >= HeaderSize
  {
    HeaderSize + DecodeHeader(buf).dataLength
  }

  /** A whole frame starts the buffer. */
  predicate Complete(buf: seq<byte>)
  {
    |buf| >= HeaderSize && |buf| >= FrameSize(buf)
  }

  /** The whole frames at the front of the buffer, in order. */
  function Frames(buf: seq<byte>): seq<seq<byte>>
    decreases |buf|
  {
    if Complete(buf) then [buf[..FrameSize(buf)]] + Frames(buf[FrameSize(buf)..]) else []
  }

  /** What is left after the whole frames: an incomplete frame, possibly empty. */
  function Rest(buf: seq<byte>): seq<byte>
    decreases |buf|
  {
    if Complete(buf) then Rest(buf[FrameSize(buf)..]) else buf
  }

  /** The frames laid end to end. */
  function Concat(fs: seq<seq<byte>>): seq<byte>
  {
    if |fs| == 0 then [] else fs[0] + Concat(fs[1..])
  }

  /** A frame's header reads the same from the frame alone. */
  lemma {:induction false} HeaderOfPrefix(buf: seq<byte>, n: int)
    requires HeaderSize <= n <= |buf|
    ensures DecodeHeader(buf[..n]) == DecodeHeader(buf)
  {
    assert At(buf[..n], 0) == At(buf, 0) && At(buf[..n], 1) == At(buf, 1) && At(buf[..n], 2) == At(buf, 2);
  }

  /** The cutting loses and repeats no byte: the frames and the rest, laid end to end, give back the buffer. */
  lemma {:induction false} FramesTile(buf: seq<byte>)
    ensures Concat(Frames(buf)) + Rest(buf) == buf
    decreases |buf|
  {
    if Complete(buf) {
      var n := FrameSize(buf);
      var tail := buf[n..];
      FramesTile(tail);
      var fs := Frames(buf);
      assert fs == [buf[..n]] + Frames(tail);
      ConcatCons(buf[..n], Frames(tail));
      assert buf == buf[..n] + tail;
    }
  }

  /** Laying out one frame, then the others. */
  lemma {:induction false} ConcatCons(f: seq<byte>, fs: seq<seq<byte>>)
    ensures Concat([f] + fs) == f + Concat(fs)
  {
    assert ([f] + fs)[1..] == fs;
  }

  /** What is left holds no whole frame. */
  lemma {:induction false} RestIncomplete(buf: seq<byte>)
    ensures !Complete(Rest(buf))
    decreases |buf|
  {
    if Complete(buf) {
      RestIncomplete(buf[FrameSize(buf)..]);
    }
  }

  /** Every frame is whole and exactly as long as its own header declares. */
  lemma {:induction false} FramesWhole(buf: seq<byte>)
    ensures forall k :: 0 <= k < |Frames(buf)| ==> Complete(Frames(buf)[k]) && |Frames(buf)[k]| == FrameSize(Frames(buf)[k])
    decreases |buf|
  {
    if Complete(buf) {
      var n := FrameSize(buf);
      var tail := buf[n..];
      FramesWhole(tail);
      HeaderOfPrefix(buf, n);
      var fs := Frames(buf);
      forall k | 0 <= k < |fs|
        ensures Complete(fs[k]) && |fs[k]| == FrameSize(fs[k])
      {
        if k > 0 {
          assert fs[k] == Frames(tail)[k - 1];
        }
      }
    }
  }
}
