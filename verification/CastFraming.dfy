// Length-prefixed messages over a byte stream that arrives in arbitrary pieces.
module CastFraming {
  import opened Wrappers
  import opened Bytes

  const MAX_MESSAGE_SIZE := 1024 * 1024
  const LENGTH_PREFIX_SIZE := 4

  // The message serialisation, taken as a pair of functions.
  datatype Codec<!M> = Codec(encode: M -> seq<byte>, decode: seq<byte> -> Option<M>)

  ghost predicate Lawful<M(!new)>(codec: Codec<M>) {
    forall m: M :: codec.decode(codec.encode(m)) == Some(m)
  }

  // ---------------------------------------------------------------------
  // One frame.
  // ---------------------------------------------------------------------

  predicate Sendable<M>(codec: Codec<M>, m: M) {
    |codec.encode(m)| <= MAX_MESSAGE_SIZE
  }

  function EncodeFrame<M>(codec: Codec<M>, m: M): Option<seq<byte>> {
    if Sendable(codec, m) then Some(BigEndian(|codec.encode(m)|, LENGTH_PREFIX_SIZE) + codec.encode(m)) else None
  }

  datatype Decoded<+M> =
    | NeedMore
    | Message(message: M, rest: seq<byte>)
    | TooLarge
    | Undecodable(rest: seq<byte>)

  function DecodeFrame<M>(codec: Codec<M>, buf: seq<byte>): Decoded<M> {
    if |buf| < LENGTH_PREFIX_SIZE then NeedMore
    else
      var length := FromBigEndian(buf[..LENGTH_PREFIX_SIZE]);
      if length > MAX_MESSAGE_SIZE then TooLarge
      else if |buf| < LENGTH_PREFIX_SIZE + length then NeedMore
      else match codec.decode(buf[LENGTH_PREFIX_SIZE..LENGTH_PREFIX_SIZE + length])
        case None => Undecodable(buf[LENGTH_PREFIX_SIZE + length..])
        case Some(m) => Message(m, buf[LENGTH_PREFIX_SIZE + length..])
  }

  // More bytes never change an answer already given.
  lemma DecodeStable<M>(codec: Codec<M>, buf: seq<byte>, more: seq<byte>)
    ensures match DecodeFrame(codec, buf)
            case NeedMore => true
            case Message(m, rest) => DecodeFrame(codec, buf + more) == Message(m, rest + more)
            case TooLarge => DecodeFrame(codec, buf + more).TooLarge?
            case Undecodable(rest) => DecodeFrame(codec, buf + more) == Undecodable(rest + more)
  {
    if |buf| >= LENGTH_PREFIX_SIZE {
      assert (buf + more)[..LENGTH_PREFIX_SIZE] == buf[..LENGTH_PREFIX_SIZE];
      var end := LENGTH_PREFIX_SIZE + FromBigEndian(buf[..LENGTH_PREFIX_SIZE]);
      if |buf| >= end {
        assert (buf + more)[LENGTH_PREFIX_SIZE..end] == buf[LENGTH_PREFIX_SIZE..end];
        assert (buf + more)[end..] == buf[end..] + more;
      }
    }
  }

  lemma FrameRoundTrip<M(!new)>(codec: Codec<M>, m: M, rest: seq<byte>)
    requires Lawful(codec) && Sendable(codec, m)
    ensures DecodeFrame(codec, EncodeFrame(codec, m).value + rest) == Message(m, rest)
  {
    var body := codec.encode(m);
    var buf := EncodeFrame(codec, m).value + rest;
    assert Power256(4) == U32_COUNT;
    BigEndianRoundTrip(|body|, LENGTH_PREFIX_SIZE);
    assert buf[..LENGTH_PREFIX_SIZE] == BigEndian(|body|, LENGTH_PREFIX_SIZE);
    assert buf[LENGTH_PREFIX_SIZE..LENGTH_PREFIX_SIZE + |body|] == body;
    assert buf[LENGTH_PREFIX_SIZE + |body|..] == rest;
  }

  // ---------------------------------------------------------------------
  // The connection.
  // ---------------------------------------------------------------------

  function Flatten(pieces: seq<seq<byte>>): seq<byte> {
    if pieces == [] then [] else pieces[0] + Flatten(pieces[1..])
  }

  datatype Outcome<+M> =
    | Received(message: M)
    | EndOfStream
    | FrameTooLarge
    | BadMessage

  // The receiving half: the bytes buffered so far and the reads the peer's
  // bytes will arrive in, each of at least one byte.
  class Connection<M> {
    const codec: Codec<M>
    var buf: seq<byte>
    var pieces: seq<seq<byte>>

    ghost predicate Valid()
      reads this
    {
      forall i :: 0 <= i < |pieces| ==> pieces[i] != []
    }

    // Everything not yet handed out.
    ghost function Stream(): seq<byte>
      reads this
    {
      buf + Flatten(pieces)
    }

    constructor (codec: Codec<M>, pieces: seq<seq<byte>>)
      requires forall i :: 0 <= i < |pieces| ==> pieces[i] != []
      ensures Valid() && this.codec == codec && Stream() == Flatten(pieces)
    {
      this.codec := codec;
      this.buf := [];
      this.pieces := pieces;
      new;
      assert [] + Flatten(pieces) == Flatten(pieces);
    }

    // Receive one message, reading as often as it takes. The outcome depends
    // on the stream alone, not on how it was cut into reads, and the guard
    // against overlong buffers is never what stops it.
    method Receive() returns (outcome: Outcome<M>)
      requires Valid()
      modifies this
      ensures Valid()
      ensures match DecodeFrame(codec, old(Stream()))
              case Message(m, rest) => outcome == Received(m) && Stream() == rest
              case NeedMore => outcome == EndOfStream && buf == Stream() == old(Stream())
              case TooLarge => outcome == FrameTooLarge && Stream() == old(Stream())
              case Undecodable(rest) => outcome == BadMessage && Stream() == rest
    {
      while true
        invariant Valid() && Stream() == old(Stream())
        decreases |pieces|
      {
        var decoded := DecodeFrame(codec, buf);
        DecodeStable(codec, buf, Flatten(pieces));
        match decoded {
          case Message(m, rest) =>
            buf := rest;
            return Received(m);
          case TooLarge => return FrameTooLarge;
          case Undecodable(rest) =>
            buf := rest;
            return BadMessage;
          case NeedMore =>
        }
        if |buf| > MAX_MESSAGE_SIZE + 8 {
          // The guard against overlong buffers: out of reach here.
          assert false;
        }
        if pieces == [] {
          assert buf + Flatten(pieces) == buf;
          return EndOfStream;
        }
        assert buf + Flatten(pieces) == buf + pieces[0] + Flatten(pieces[1..]);
        buf := buf + pieces[0];
        pieces := pieces[1..];
      }
    }

    // Receive until the stream ends or breaks.
    method ReceiveAll() returns (messages: seq<M>, last: Outcome<M>)
      requires Valid()
      modifies this
      ensures messages == AllMessages(codec, old(Stream())).0
      ensures last == AllMessages(codec, old(Stream())).1
      ensures last == EndOfStream ==> buf == Leftover(codec, old(Stream()))
    {
      hide DecodeFrame, AllMessages, Leftover;
      messages := [];
      last := Receive();
      ghost var start := old(Stream());
      ghost var seen := start;
      while last.Received?
        invariant Valid()
        invariant Leftover(codec, start) == Leftover(codec, seen)
        invariant AllMessages(codec, start).0 == messages + AllMessages(codec, seen).0
        invariant AllMessages(codec, start).1 == AllMessages(codec, seen).1
        invariant match DecodeFrame(codec, seen)
                  case Message(m, rest) => last == Received(m) && Stream() == rest
                  case NeedMore => last == EndOfStream && buf == seen
                  case TooLarge => last == FrameTooLarge
                  case Undecodable(rest) => last == BadMessage && Stream() == rest
        decreases |seen|
      {
        FirstMessage(codec, seen);
        messages := messages + [last.message];
        seen := Stream();
        last := Receive();
      }
      NoMessage(codec, seen);
    }
  }

  // The messages at the front of a stream, and how it ends.
  function AllMessages<M>(codec: Codec<M>, stream: seq<byte>): (seq<M>, Outcome<M>)
    decreases |stream|
  {
    match DecodeFrame(codec, stream)
    case NeedMore => ([], EndOfStream)
    case TooLarge => ([], FrameTooLarge)
    case Undecodable(_) => ([], BadMessage)
    case Message(m, rest) =>
      var later := AllMessages(codec, rest);
      ([m] + later.0, later.1)
  }

  lemma FirstMessage<M>(codec: Codec<M>, stream: seq<byte>)
    requires DecodeFrame(codec, stream).Message?
    ensures var first := DecodeFrame(codec, stream);
      && |first.rest| < |stream| && Leftover(codec, stream) == Leftover(codec, first.rest)
      && AllMessages(codec, stream)
         == ([first.message] + AllMessages(codec, first.rest).0, AllMessages(codec, first.rest).1)
  {
  }

  lemma NoMessage<M>(codec: Codec<M>, stream: seq<byte>)
    requires !DecodeFrame(codec, stream).Message?
    ensures AllMessages(codec, stream).0 == [] && Leftover(codec, stream) == stream
    ensures AllMessages(codec, stream).1
         == match DecodeFrame(codec, stream) case NeedMore => EndOfStream case TooLarge => FrameTooLarge case _ => BadMessage
  {
  }

  // The bytes after the last complete frame.
  function Leftover<M>(codec: Codec<M>, stream: seq<byte>): seq<byte>
    decreases |stream|
  {
    match DecodeFrame(codec, stream)
    case Message(_, rest) => Leftover(codec, rest)
    case _ => stream
  }

  // ---------------------------------------------------------------------
  // Main results.
  // ---------------------------------------------------------------------

  function Frames<M>(codec: Codec<M>, messages: seq<M>): seq<byte>
    requires forall i :: 0 <= i < |messages| ==> Sendable(codec, messages[i])
  {
    if messages == [] then [] else EncodeFrame(codec, messages[0]).value + Frames(codec, messages[1..])
  }

  // A strict beginning of a frame that can be sent.
  ghost predicate FramePrefix(bytes: seq<byte>) {
    |bytes| < LENGTH_PREFIX_SIZE
    || |bytes| < LENGTH_PREFIX_SIZE + FromBigEndian(bytes[..LENGTH_PREFIX_SIZE]) <= LENGTH_PREFIX_SIZE + MAX_MESSAGE_SIZE
  }

  // The frames of any messages, followed by a strict beginning of one more,
  // come back as exactly those messages in order, then the end of the stream.
  lemma {:induction false} MessagesRoundTrip<M(!new)>(codec: Codec<M>, messages: seq<M>, tail: seq<byte>)
    requires Lawful(codec) && FramePrefix(tail)
    requires forall i :: 0 <= i < |messages| ==> Sendable(codec, messages[i])
    ensures AllMessages(codec, Frames(codec, messages) + tail) == (messages, EndOfStream)
    ensures Leftover(codec, Frames(codec, messages) + tail) == tail
    decreases |messages|
  {
    if messages == [] {
      assert Frames(codec, messages) + tail == tail;
    } else {
      var rest := Frames(codec, messages[1..]) + tail;
      assert Frames(codec, messages) + tail == EncodeFrame(codec, messages[0]).value + rest;
      FrameRoundTrip(codec, messages[0], rest);
      MessagesRoundTrip(codec, messages[1..], tail);
      assert messages == [messages[0]] + messages[1..];
    }
  }

  lemma PrefixOfFrame<M>(codec: Codec<M>, m: M, k: nat)
    requires Sendable(codec, m) && k < |EncodeFrame(codec, m).value|
    ensures FramePrefix(EncodeFrame(codec, m).value[..k])
  {
    var frame, length := EncodeFrame(codec, m).value, |codec.encode(m)|;
    assert Power256(4) == U32_COUNT;
    BigEndianRoundTrip(length, LENGTH_PREFIX_SIZE);
    if k >= LENGTH_PREFIX_SIZE {
      assert frame[..k][..LENGTH_PREFIX_SIZE] == BigEndian(length, LENGTH_PREFIX_SIZE);
    }
  }

  // The end of the stream is answered "no message" wherever it falls: any
  // messages followed by the first `k` octets of one more frame end like a
  // stream of whole frames, and what is left is empty only if `k` is zero.
  lemma CutStream<M(!new)>(codec: Codec<M>, messages: seq<M>, m: M, k: nat)
    requires Lawful(codec) && Sendable(codec, m) && k < |EncodeFrame(codec, m).value|
    requires forall i :: 0 <= i < |messages| ==> Sendable(codec, messages[i])
    ensures var cut := EncodeFrame(codec, m).value[..k];
      var stream := Frames(codec, messages) + cut;
      && AllMessages(codec, stream) == (messages, EndOfStream)
      && Leftover(codec, stream) == cut
      && (Leftover(codec, stream) == [] <==> k == 0)
  {
    hide AllMessages, Leftover, Frames;
    PrefixOfFrame(codec, m, k);
    MessagesRoundTrip(codec, messages, EncodeFrame(codec, m).value[..k]);
  }

  // Whenever receiving ends with the stream, what is left over is a strict
  // beginning of a frame, so no message was held back.
  lemma {:induction false} LeftoverIsPrefix<M>(codec: Codec<M>, stream: seq<byte>)
    requires AllMessages(codec, stream).1 == EndOfStream
    ensures FramePrefix(Leftover(codec, stream))
    decreases |stream|
  {
    match DecodeFrame(codec, stream) {
      case Message(_, rest) => LeftoverIsPrefix(codec, rest);
      case _ =>
    }
  }

  // ---------------------------------------------------------------------
  // The limits and the length, octet by octet.
  // ---------------------------------------------------------------------

  // A message goes out exactly when it has at most 1 MiB, behind its length
  // in four octets, most significant first.
  lemma FrameIs<M(!new)>(codec: Codec<M>, m: M)
    ensures EncodeFrame(codec, m).Some? <==> |codec.encode(m)| <= 1_048_576
    ensures EncodeFrame(codec, m).Some? ==>
              var f, body := EncodeFrame(codec, m).value, codec.encode(m);
              && |f| == 4 + |body| && f[4..] == body
              && 0x100_0000 * f[0] as nat + 0x1_0000 * f[1] as nat + 0x100 * f[2] as nat + f[3] as nat == |body|
  {
    hide BigEndian, FromBigEndian;
    var body := codec.encode(m);
    if EncodeFrame(codec, m).Some? {
      var f := EncodeFrame(codec, m).value;
      assert Power256(4) == U32_COUNT;
      BigEndianRoundTrip(|body|, 4);
      BigEndianIs(f[0], f[1], f[2], f[3]);
      assert f[..4] == BigEndian(|body|, 4) && f[..4] == [f[0], f[1], f[2], f[3]];
    }
  }

  // What any buffer decodes to: too large as soon as the length is there and
  // above 1 MiB, whatever follows; more is needed until the whole body is
  // there; and then the body decides.
  lemma DecodeExactly<M(!new)>(codec: Codec<M>, buf: seq<byte>)
    ensures |buf| < 4 ==> DecodeFrame(codec, buf).NeedMore?
    ensures |buf| >= 4 ==>
      var length := 0x100_0000 * buf[0] as nat + 0x1_0000 * buf[1] as nat + 0x100 * buf[2] as nat + buf[3] as nat;
      && (DecodeFrame(codec, buf).TooLarge? <==> length > 1_048_576)
      && (DecodeFrame(codec, buf).NeedMore? <==> length <= 1_048_576 && |buf| < 4 + length)
      && (length <= 1_048_576 && |buf| >= 4 + length ==>
            DecodeFrame(codec, buf) == match codec.decode(buf[4..4 + length])
                                       case Some(m) => Message(m, buf[4 + length..])
                                       case None => Undecodable(buf[4 + length..]))
  {
    hide FromBigEndian;
    if |buf| >= 4 {
      BigEndianIs(buf[0], buf[1], buf[2], buf[3]);
      assert buf[..4] == [buf[0], buf[1], buf[2], buf[3]];
    }
  }
}
