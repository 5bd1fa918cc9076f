// The receive side of chat_client: connect, then read a header, then the body
// it announces, then the next header, until a failure ends the chain. Each
// completion handler is one step of this machine.
module Inbound {
  import opened Bytes
  import opened Framing

  /** Which asynchronous operation is outstanding on the receive side. Stopped:
      none is, and none will be started again. */
  datatype Receiver = Connecting | ReadingHeader | ReadingBody(length: nat) | Stopped

  /** A completion, with its error code reduced to ok and the bytes the read
      placed in `read_msg_`. */
  datatype ReadEvent =
    | Connected(ok: bool)
    | HeaderRead(ok: bool, header: seq<byte>)
    | BodyRead(ok: bool, body: seq<byte>)

  /** What a handler does besides starting the next read: close the socket, or
      pass a received body to the two sinks (standard output receives all
      `body_length()` bytes; the serial port receives the body as a C string). */
  datatype Effect = Nothing | CloseSocket | Deliver(console: seq<byte>, serial: seq<byte>)

  datatype Reaction = Reaction(next: Receiver, effect: Effect)

  /** A completion arrives only for the operation outstanding, and a read that
      succeeds has filled exactly the bytes it asked for. */
  predicate Expects(codec: Codec, r: Receiver, e: ReadEvent) {
    match e
    case Connected(_) => r == Connecting
    case HeaderRead(ok, header) => r == ReadingHeader && (ok ==> |header| == codec.headerLength)
    case BodyRead(ok, body) => r.ReadingBody? && (ok ==> |body| == r.length)
  }

  function Receive(codec: Codec, r: Receiver, e: ReadEvent): (t: Reaction)
    requires Expects(codec, r, e)
    // a failed connect ends the chain without closing the socket
    ensures e.Connected? ==> t == (if e.ok then Reaction(ReadingHeader, Nothing) else Reaction(Stopped, Nothing))
    // a header that arrives and decodes moves to the body it announces;
    // any other header outcome closes the socket
    ensures e.HeaderRead? && e.ok && codec.decode(e.header).Some? ==>
              t == Reaction(ReadingBody(codec.decode(e.header).value), Nothing)
    ensures e.HeaderRead? && !(e.ok && codec.decode(e.header).Some?) ==> t == Reaction(Stopped, CloseSocket)
    // a body that arrives is delivered whole, then the next header is read;
    // a failed body read closes the socket
    ensures e.BodyRead? && e.ok ==>
              t.next == ReadingHeader && t.effect.Deliver? && t.effect.console == e.body &&
              |t.effect.console| == r.length && t.effect.serial == CStringPrefix(e.body)
    ensures e.BodyRead? && !e.ok ==> t == Reaction(Stopped, CloseSocket)
    // the chain ends exactly on a failure
    ensures t.next == Stopped <==> !e.ok || (e.HeaderRead? && codec.decode(e.header).None?)
  {
    match e
    case Connected(ok) =>
      if ok then Reaction(ReadingHeader, Nothing) else Reaction(Stopped, Nothing)
    case HeaderRead(ok, header) =>
      if ok && codec.decode(header).Some? then Reaction(ReadingBody(codec.decode(header).value), Nothing)
      else Reaction(Stopped, CloseSocket)
    case BodyRead(ok, body) =>
      if ok then Reaction(ReadingHeader, Deliver(body, CStringPrefix(body)))
      else Reaction(Stopped, CloseSocket)
  }

  /** A body that holds no NUL reaches the serial port whole. */
  lemma SerialGetsWholeBodyWithoutNul(codec: Codec, n: nat, body: seq<byte>)
    requires |body| == n && NUL !in body
    ensures Receive(codec, ReadingBody(n), BodyRead(true, body)).effect == Deliver(body, body)
  {
  }

  // Runs of completions

  ghost predicate Admissible(codec: Codec, r: Receiver, es: seq<ReadEvent>)
    decreases |es|
  {
    es == [] || (Expects(codec, r, es[0]) && Admissible(codec, Receive(codec, r, es[0]).next, es[1..]))
  }

  /** The state after a run, what reached standard output, what reached the
      serial port, and whether the socket was closed on the way. */
  datatype Outcome = Outcome(last: Receiver, console: seq<byte>, serial: seq<byte>, closed: bool)

  ghost function Run(codec: Codec, r: Receiver, es: seq<ReadEvent>): Outcome
    requires Admissible(codec, r, es)
    decreases |es|
  {
    if es == [] then Outcome(r, [], [], false)
    else
      var t := Receive(codec, r, es[0]);
      var o := Run(codec, t.next, es[1..]);
      match t.effect
      case Deliver(c, s) => o.(console := c + o.console, serial := s + o.serial)
      case CloseSocket => o.(closed := true)
      case Nothing => o
  }

  /** A frame as the peer writes it: a header of the agreed width that decodes
      to the length of the body behind it. */
  predicate WellFramed(codec: Codec, m: Message) {
    |m.header| == codec.headerLength && codec.decode(m.header) == Some(|m.body|)
  }

  /** The completions that reading a stream of frames produces. */
  function FrameEvents(frames: seq<Message>): (es: seq<ReadEvent>)
    ensures |es| == 2 * |frames|
  {
    if frames == [] then []
    else [HeaderRead(true, frames[0].header), BodyRead(true, frames[0].body)] + FrameEvents(frames[1..])
  }

  function Bodies(frames: seq<Message>): seq<byte> {
    if frames == [] then [] else frames[0].body + Bodies(frames[1..])
  }

  function SerialText(frames: seq<Message>): seq<byte> {
    if frames == [] then [] else CStringPrefix(frames[0].body) + SerialText(frames[1..])
  }

  /** Reading a stream of well-framed messages delivers their bodies in order,
      exactly, to standard output (and their C-string prefixes to the serial
      port), never closes the socket, and ends waiting for the next header. */
  lemma {:induction false} FramesAreDelivered(codec: Codec, frames: seq<Message>)
    requires forall m :: m in frames ==> WellFramed(codec, m)
    decreases |frames|
    ensures Admissible(codec, ReadingHeader, FrameEvents(frames))
    ensures Run(codec, ReadingHeader, FrameEvents(frames))
            == Outcome(ReadingHeader, Bodies(frames), SerialText(frames), false)
  {
    if frames != [] {
      var m := frames[0];
      var es := FrameEvents(frames);
      var tail := FrameEvents(frames[1..]);
      assert WellFramed(codec, m);
      assert es[0] == HeaderRead(true, m.header);
      assert es[1..][0] == BodyRead(true, m.body);
      assert es[1..][1..] == tail;
      FramesAreDelivered(codec, frames[1..]);
    }
  }

  /** The end-to-end case: a header that decodes to 5 followed by "hello"
      writes exactly "hello" to the serial port. */
  lemma HelloReachesSerial(codec: Codec, header: seq<byte>)
    requires |header| == codec.headerLength && codec.decode(header) == Some(5)
    ensures var hello: seq<byte> := [104, 101, 108, 108, 111];
      Run(codec, ReadingHeader, [HeaderRead(true, header), BodyRead(true, hello)])
      == Outcome(ReadingHeader, hello, hello, false)
  {
    var hello: seq<byte> := [104, 101, 108, 108, 111];
    FramesAreDelivered(codec, [Message(header, hello)]);
    assert FrameEvents([Message(header, hello)]) == [HeaderRead(true, header), BodyRead(true, hello)];
  }

  /** A sanity check of Expects: once the chain has stopped no completion is
      admitted, so every run from Stopped is empty. */
  lemma StoppedIsFinal(codec: Codec, es: seq<ReadEvent>)
    requires Admissible(codec, Stopped, es)
    ensures es == []
  {
  }
}
