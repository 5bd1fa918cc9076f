// The serial-capture loop of `main`: poll the serial port into a 4096-byte
// buffer, terminate and sanitise what arrived in place, build a chat message
// from it and hand the message to the client's `write`.
module Bridge {
  import opened Bytes
  import opened Framing
  import opened Sanitiser
  import Seqs
  import Client

  const BufferSize: nat := 4096
  const PollLimit: nat := 4095  // the most bytes one poll may return

  /** The message built from a poll of the given bytes: `body_length` is asked
      for the poll count, the body is that many sanitised bytes, and the
      header encodes the length that was stored. */
  function MessageFor(codec: Codec, polled: seq<byte>): (m: Message)
    requires codec.NeverLengthens()
    ensures |m.body| == codec.setLength(|polled|) <= |polled|
    ensures m.body == Sanitised(polled)[..|m.body|]
    ensures NUL !in m.body
    ensures m.header == codec.encode(|m.body|)
  {
    var length := codec.setLength(|polled|);
    SanitisedHasNoNul(polled);
    Message(codec.encode(length), Sanitised(polled)[..length])
  }

  /** When the body fits, the message carries every polled byte, sanitised. */
  lemma MessageKeepsEveryByte(codec: Codec, polled: seq<byte>)
    requires codec.NeverLengthens() && codec.setLength(|polled|) == |polled|
    ensures MessageFor(codec, polled).body == Sanitised(polled)
    ensures |MessageFor(codec, polled).body| == |polled|
  {
  }

  /** The driver's poll: the n bytes read land at the start of the buffer; the
      rest keeps what earlier polls left there. */
  method Poll(buf: array<byte>, polled: seq<byte>)
    requires |polled| <= buf.Length
    modifies buf
    ensures buf[..] == polled + old(buf[..])[|polled|..]
  {
    forall i | 0 <= i < |polled| {
      buf[i] := polled[i];
    }
  }

  /** `buf[n] = 0` and the loop over the first n bytes that replaces the
      unreadable ones by '*'. */
  method SanitiseInPlace(buf: array<byte>, n: nat)
    requires buf.Length == BufferSize && n <= PollLimit
    modifies buf
    ensures buf[..] == SanitisedBuffer(old(buf[..]), n)
  {
    buf[n] := NUL;
    var i := 0;
    while i < n
      invariant 0 <= i <= n
      invariant forall k :: 0 <= k < i ==> buf[k] == SanitiseByte(old(buf[k]))
      invariant forall k :: i <= k < buf.Length && k != n ==> buf[k] == old(buf[k])
      invariant buf[n] == NUL
    {
      if IsUnreadable(buf[i]) {
        buf[i] := Star;
      }
      i := i + 1;
    }
    assert buf[..] == SanitisedBuffer(old(buf[..]), n);
  }

  /** The message-building part of the loop body. Returns the message and the
      length that was passed to `body_length`, which is the poll count. */
  method BuildMessage(codec: Codec, buf: array<byte>, n: nat) returns (msg: Message, requested: nat)
    requires codec.NeverLengthens()
    requires buf.Length == BufferSize && 0 < n <= PollLimit
    modifies buf
    ensures buf[..] == SanitisedBuffer(old(buf[..]), n)
    ensures requested == n
    ensures msg == MessageFor(codec, old(buf[..n]))
  {
    ghost var before := buf[..];
    SanitiseInPlace(buf, n);
    StrLenIsPollCount(before, n);
    requested := StrLen(buf);
    var length := codec.setLength(requested);
    var body := buf[..length];
    msg := Message(codec.encode(length), body);
    assert before[..n] == old(buf[..n]);
    assert body == Sanitised(before[..n])[..length];
  }

  /** One pass of the `while(1)` loop on a poll that returned n (negative on a
      driver error) with the given bytes: a poll that returned bytes queues
      one message through `write`, any other leaves the client alone. */
  method PollOnce(client: Client.ChatClient, buf: array<byte>, n: int, polled: seq<byte>)
    requires client.Valid() && client.codec.NeverLengthens()
    requires buf.Length == BufferSize && n <= PollLimit
    requires |polled| == (if n > 0 then n else 0)
    modifies client, buf
    ensures client.Valid()
    ensures var added := if n > 0 then [MessageFor(client.codec, polled)] else [];
      && client.writeMsgs == old(client.writeMsgs) + added
      && client.enqueued == old(client.enqueued) + added
    ensures client.receiver == old(client.receiver) && client.console == old(client.console)
    ensures client.serial == old(client.serial) && client.sent == old(client.sent)
  {
    Poll(buf, polled);
    if n > 0 {
      assert buf[..n] == polled;
      var msg, requested := BuildMessage(client.codec, buf, n);
      client.Write(msg);
    }
  }

  /** How many polls of a run returned bytes. */
  function Returning(polls: seq<seq<byte>>): nat {
    if polls == [] then 0
    else Returning(polls[..|polls| - 1]) + (if polls[|polls| - 1] == [] then 0 else 1)
  }

  /** The messages a run of polls produces: exactly one per poll that
      returned bytes, each built from one such poll, and none for the others. */
  function MessagesFor(codec: Codec, polls: seq<seq<byte>>): (ms: seq<Message>)
    requires codec.NeverLengthens()
    ensures |ms| == Returning(polls) <= |polls|
    ensures |ms| == |polls| <==> forall i :: 0 <= i < |polls| ==> polls[i] != []
    ensures ms == [] <==> forall i :: 0 <= i < |polls| ==> polls[i] == []
    ensures forall m :: m in ms ==> exists i :: 0 <= i < |polls| && polls[i] != [] && m == MessageFor(codec, polls[i])
  {
    if polls == [] then []
    else
      var last := polls[|polls| - 1];
      MessagesFor(codec, polls[..|polls| - 1]) + (if last == [] then [] else [MessageFor(codec, last)])
  }

  /** One more poll adds its message, if any, at the end. */
  lemma MessagesForSnoc(codec: Codec, polls: seq<seq<byte>>, i: nat)
    requires codec.NeverLengthens() && i < |polls|
    ensures MessagesFor(codec, polls[..i + 1])
            == MessagesFor(codec, polls[..i]) + (if polls[i] == [] then [] else [MessageFor(codec, polls[i])])
  {
    assert polls[..i + 1][..i] == polls[..i];
  }

  /** The `while(1)` loop over a finite run of polls: every poll that returned
      bytes becomes exactly one message, queued in poll order. */
  method ServeSerial(client: Client.ChatClient, buf: array<byte>, polls: seq<seq<byte>>)
    requires client.Valid() && client.codec.NeverLengthens()
    requires buf.Length == BufferSize
    requires forall p :: p in polls ==> |p| <= PollLimit
    modifies client, buf
    ensures client.Valid()
    ensures client.enqueued == old(client.enqueued) + MessagesFor(client.codec, polls)
    ensures client.writeMsgs == old(client.writeMsgs) + MessagesFor(client.codec, polls)
    ensures client.receiver == old(client.receiver) && client.sent == old(client.sent)
  {
    ghost var codec := client.codec;
    ghost var queue0, enqueued0 := client.writeMsgs, client.enqueued;
    var i := 0;
    while i < |polls|
      invariant 0 <= i <= |polls|
      invariant client.Valid()
      invariant client.enqueued == enqueued0 + MessagesFor(codec, polls[..i])
      invariant client.writeMsgs == queue0 + MessagesFor(codec, polls[..i])
      invariant client.receiver == old(client.receiver) && client.sent == old(client.sent)
    {
      var p := polls[i];
      assert p in polls;
      ghost var done := MessagesFor(codec, polls[..i]);
      ghost var added := if p == [] then [] else [MessageFor(codec, p)];
      PollOnce(client, buf, |p|, p);
      Seqs.Associative(queue0, done, added);
      Seqs.Associative(enqueued0, done, added);
      MessagesForSnoc(codec, polls, i);
      i := i + 1;
    }
    assert polls[..i] == polls;
  }
}
