// The chat_client object. Its fields are updated in place by the tasks that
// `write` and `close` post and by the completion handlers; all of them run on
// the one I/O context, so each is a method here and a run of the client is a
// sequence of calls.
module Client {
  import opened Bytes
  import opened Framing
  import Outbound
  import Inbound

  class ChatClient {
    const codec: Codec

    var writeMsgs: seq<Message>   // write_msgs_
    var writeInFlight: bool       // an async_write on writeMsgs[0] is outstanding
    var closed: bool              // socket_.close() has been called
    var receiver: Inbound.Receiver
    var readHeader: seq<byte>     // header region of read_msg_
    var readBody: seq<byte>       // body region of read_msg_
    var console: seq<byte>        // everything written to standard output
    var serial: seq<byte>         // everything written to the serial port

    ghost var enqueued: seq<Message>  // every message `write` has queued, in order
    ghost var issued: seq<Message>    // every message handed to async_write, in order
    ghost var sent: seq<Message>      // every message whose write completed successfully

    function WriterState(): Outbound.Writer
      reads this
    {
      Outbound.Writer(writeMsgs, writeInFlight, closed)
    }

    /** The object invariant: the queue invariant, the first-in-first-out
        accounting of what was queued, and a body read that is outstanding
        was announced by the header in read_msg_. */
    ghost predicate Valid()
      reads this
    {
      && Outbound.Consistent(WriterState())
      && sent + writeMsgs == enqueued
      && issued + Outbound.Unissued(writeMsgs) == enqueued
      && (receiver.ReadingBody? ==> codec.decode(readHeader) == Some(receiver.length))
    }

    /** The constructor starts the connect. */
    constructor (codec: Codec)
      ensures Valid()
      ensures this.codec == codec && receiver == Inbound.Connecting
      ensures WriterState() == Outbound.Idle
      ensures console == [] && serial == [] && enqueued == [] && issued == [] && sent == []
    {
      this.codec := codec;
      writeMsgs, writeInFlight, closed := [], false, false;
      receiver := Inbound.Connecting;
      readHeader, readBody := [], [];
      console, serial := [], [];
      enqueued, issued, sent := [], [], [];
    }

    /** `write`: the posted task queues the message and starts a write only if
        none was in progress. */
    method Write(msg: Message)
      requires Valid()
      modifies this
      ensures Valid()
      ensures var t := Outbound.Step(old(WriterState()), Outbound.Enqueue(msg));
        && WriterState() == t.next
        && issued == old(issued) + t.issued
        && sent == old(sent)
      ensures writeMsgs == old(writeMsgs) + [msg] && enqueued == old(enqueued) + [msg]
      ensures receiver == old(receiver) && readHeader == old(readHeader) && readBody == old(readBody)
      ensures console == old(console) && serial == old(serial)
    {
      var writeInProgress := writeMsgs != [];
      writeMsgs := writeMsgs + [msg];
      enqueued := enqueued + [msg];
      if !writeInProgress {
        DoWrite();
      }
    }

    /** `do_write`: hand the front of the queue to async_write. */
    method DoWrite()
      requires writeMsgs != []
      modifies this
      ensures writeMsgs == old(writeMsgs) && closed == old(closed)
      ensures writeInFlight && issued == old(issued) + [writeMsgs[0]]
      ensures enqueued == old(enqueued) && sent == old(sent)
      ensures receiver == old(receiver) && readHeader == old(readHeader) && readBody == old(readBody)
      ensures console == old(console) && serial == old(serial)
    {
      writeInFlight := true;
      issued := issued + [writeMsgs[0]];
    }

    /** The completion handler of the outstanding write: on success pop the
        front and chain the next message; on failure close the socket. */
    method OnWriteCompleted(ok: bool)
      requires Valid() && writeInFlight
      modifies this
      ensures Valid()
      ensures var t := Outbound.Step(old(WriterState()), Outbound.WriteCompleted(ok));
        && WriterState() == t.next
        && issued == old(issued) + t.issued
        && sent == old(sent) + t.sent
      ensures enqueued == old(enqueued)
      ensures receiver == old(receiver) && readHeader == old(readHeader) && readBody == old(readBody)
      ensures console == old(console) && serial == old(serial)
    {
      writeInFlight := false;
      if ok {
        sent := sent + [writeMsgs[0]];
        writeMsgs := writeMsgs[1..];
        if writeMsgs != [] {
          DoWrite();
        }
      } else {
        closed := true;
      }
    }

    /** `close`: the posted task closes the socket. */
    method Close()
      requires Valid()
      modifies this
      ensures Valid()
      ensures WriterState() == Outbound.Step(old(WriterState()), Outbound.SocketClosed).next
      ensures closed
      ensures enqueued == old(enqueued) && issued == old(issued) && sent == old(sent)
      ensures receiver == old(receiver) && readHeader == old(readHeader) && readBody == old(readBody)
      ensures console == old(console) && serial == old(serial)
    {
      closed := true;
    }

    /** The handler of async_connect: on success start reading a header;
        on failure do nothing more. */
    method OnConnected(ok: bool)
      requires Valid() && receiver == Inbound.Connecting
      modifies this
      ensures Valid()
      ensures receiver == Inbound.Receive(codec, old(receiver), Inbound.Connected(ok)).next
      ensures WriterState() == old(WriterState())
      ensures enqueued == old(enqueued) && issued == old(issued) && sent == old(sent)
      ensures readHeader == old(readHeader) && readBody == old(readBody)
      ensures console == old(console) && serial == old(serial)
    {
      if ok {
        receiver := Inbound.ReadingHeader;
      } else {
        receiver := Inbound.Stopped;
      }
    }

    /** The handler of the header read: if it arrived and decodes, read the
        body it announces; otherwise close the socket. */
    method OnHeaderRead(ok: bool, header: seq<byte>)
      requires Valid() && Inbound.Expects(codec, receiver, Inbound.HeaderRead(ok, header))
      modifies this
      ensures Valid()
      ensures var t := Inbound.Receive(codec, old(receiver), Inbound.HeaderRead(ok, header));
        && receiver == t.next
        && WriterState() == (if t.effect == Inbound.CloseSocket
                             then Outbound.Step(old(WriterState()), Outbound.SocketClosed).next
                             else old(WriterState()))
      ensures readHeader == (if ok then header else old(readHeader)) && readBody == old(readBody)
      ensures enqueued == old(enqueued) && issued == old(issued) && sent == old(sent)
      ensures console == old(console) && serial == old(serial)
    {
      if ok {
        readHeader := header;
      }
      var decoded := codec.decode(readHeader);
      if ok && decoded.Some? {
        receiver := Inbound.ReadingBody(decoded.value);
      } else {
        closed := true;
        receiver := Inbound.Stopped;
      }
    }

    /** The handler of the body read: on success write the body to standard
        output and, as a C string, to the serial port, then read the next
        header; otherwise close the socket. */
    method OnBodyRead(ok: bool, body: seq<byte>)
      requires Valid() && Inbound.Expects(codec, receiver, Inbound.BodyRead(ok, body))
      modifies this
      ensures Valid()
      ensures var t := Inbound.Receive(codec, old(receiver), Inbound.BodyRead(ok, body));
        && receiver == t.next
        && (t.effect.Deliver? ==> console == old(console) + t.effect.console
                                  && serial == old(serial) + t.effect.serial)
        && (!t.effect.Deliver? ==> console == old(console) && serial == old(serial))
        && WriterState() == (if t.effect == Inbound.CloseSocket
                             then Outbound.Step(old(WriterState()), Outbound.SocketClosed).next
                             else old(WriterState()))
      ensures readBody == (if ok then body else old(readBody)) && readHeader == old(readHeader)
      ensures enqueued == old(enqueued) && issued == old(issued) && sent == old(sent)
    {
      if ok {
        readBody := body;
        var length := receiver.length;
        console := console + readBody[..length];
        serial := serial + CStringPrefix(readBody[..length]);
        receiver := Inbound.ReadingHeader;
      } else {
        closed := true;
        receiver := Inbound.Stopped;
      }
    }
  }
}
