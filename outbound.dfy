// The outbound side of chat_client: the write queue `write_msgs_` and the
// single async_write that may be outstanding on it. Every change to it runs
// on the one I/O context, so it is a step function over the events that
// context serialises: an enqueue posted by `write`, the completion of the
// outstanding write, and the socket being closed.
module Outbound {
  import opened Framing
  import Seqs

  /** queue: `write_msgs_`; inFlight: an async_write on queue[0] is
      outstanding; closed: `socket_.close()` has been called. */
  datatype Writer = Writer(queue: seq<Message>, inFlight: bool, closed: bool)

  datatype WriterEvent =
    | Enqueue(msg: Message)       // the task `write` posts
    | WriteCompleted(ok: bool)    // the handler of the outstanding async_write
    | SocketClosed                // `close()`, or a failed read closing the socket

  /** What one step did: the new state, the message handed to async_write (if
      any) and the message whose write completed successfully (if any). */
  datatype Transition = Transition(next: Writer, issued: seq<Message>, sent: seq<Message>)

  const Idle := Writer([], false, false)

  /** While the socket is open a write is outstanding exactly when the queue is
      non-empty; an outstanding write is always on a queued message. Only a
      failed write (which closes the socket) leaves a non-empty queue with no
      write outstanding. */
  ghost predicate Consistent(w: Writer) {
    && (w.inFlight ==> w.queue != [])
    && (!w.closed ==> (w.inFlight <==> w.queue != []))
  }

  /** A completion arrives only for a write that was started. */
  predicate Enabled(w: Writer, e: WriterEvent) {
    e.WriteCompleted? ==> w.inFlight
  }

  function EnqueuedBy(e: WriterEvent): seq<Message> {
    if e.Enqueue? then [e.msg] else []
  }

  /** Queued messages that have not been handed to async_write: the front of a
      non-empty queue always has been (it is in flight, or its write failed). */
  function Unissued(q: seq<Message>): seq<Message> {
    if q == [] then [] else q[1..]
  }

  function Step(w: Writer, e: WriterEvent): (t: Transition)
    requires Consistent(w) && Enabled(w, e)
    // the queue invariant is kept
    ensures Consistent(t.next)
    // single flight: a write starts only when none is outstanding, or the
    // outstanding one has just succeeded; it is always on the new front
    ensures |t.issued| <= 1
    ensures t.issued != [] ==> !w.inFlight || e == WriteCompleted(true)
    ensures t.issued != [] ==> t.next.inFlight && t.next.queue != [] && t.issued[0] == t.next.queue[0]
    // `write` appends at the back and starts a write exactly when the queue was empty
    ensures e.Enqueue? ==> t.next.queue == w.queue + [e.msg] && (t.issued != [] <==> w.queue == [])
    // a success pops the front and chains the next message, if any
    ensures e == WriteCompleted(true) ==>
              t.sent == [w.queue[0]] && t.next.queue == w.queue[1..] && (t.issued != [] <==> t.next.queue != [])
    // a failure closes the socket and does not pop
    ensures e == WriteCompleted(false) ==>
              t.next.queue == w.queue && t.next.closed && !t.next.inFlight && t.issued == [] && t.sent == []
    // closing only marks the socket closed; nothing else closes it
    ensures e == SocketClosed ==> t == Transition(w.(closed := true), [], [])
    ensures e.Enqueue? || e == WriteCompleted(true) ==> t.next.closed == w.closed
    // first in, first out
    ensures t.sent + t.next.queue == w.queue + EnqueuedBy(e)
    ensures t.issued + Unissued(t.next.queue) == Unissued(w.queue) + EnqueuedBy(e)
  {
    match e
    case Enqueue(m) =>
      var writeInProgress := w.queue != [];
      var q := w.queue + [m];
      if writeInProgress then Transition(w.(queue := q), [], [])
      else Transition(Writer(q, true, w.closed), [m], [])
    case WriteCompleted(ok) =>
      if ok then
        var q := w.queue[1..];
        if q != [] then Transition(Writer(q, true, w.closed), [q[0]], [w.queue[0]])
        else Transition(Writer(q, false, w.closed), [], [w.queue[0]])
      else Transition(Writer(w.queue, false, true), [], [])
    case SocketClosed =>
      Transition(w.(closed := true), [], [])
  }

  /** A run of events, each arriving when it can. */
  ghost predicate Admissible(w: Writer, es: seq<WriterEvent>)
    decreases |es|
  {
    es == [] || (Consistent(w) && Enabled(w, es[0]) && Admissible(Step(w, es[0]).next, es[1..]))
  }

  function Enqueued(es: seq<WriterEvent>): seq<Message> {
    if es == [] then [] else EnqueuedBy(es[0]) + Enqueued(es[1..])
  }

  ghost function Run(w: Writer, es: seq<WriterEvent>): Transition
    requires Admissible(w, es)
    decreases |es|
  {
    if es == [] then Transition(w, [], [])
    else
      var t := Step(w, es[0]);
      var u := Run(t.next, es[1..]);
      Transition(u.next, t.issued + u.issued, t.sent + u.sent)
  }

  /** The bookkeeping step of RunIsFifo: an earlier part and a later part of a
      run compose. */
  lemma Regroup<T>(a: seq<T>, b: seq<T>, c: seq<T>, d: seq<T>, e: seq<T>, f: seq<T>, g: seq<T>)
    requires b + c == d + e
    requires a + d == f + g
    ensures (a + b) + c == f + (g + e)
  {
    calc {
      (a + b) + c;
      a + (b + c);
      a + (d + e);
      (a + d) + e;
      (f + g) + e;
    }
  }

  /** Over any run, messages are handed to async_write and are sent in the
      order they were enqueued, each at most once, and what has not been sent
      is still queued in that order. */
  lemma {:induction false} RunIsFifo(w: Writer, es: seq<WriterEvent>)
    requires Consistent(w) && Admissible(w, es)
    decreases |es|
    ensures Consistent(Run(w, es).next)
    ensures Run(w, es).sent + Run(w, es).next.queue == w.queue + Enqueued(es)
    ensures Run(w, es).issued + Unissued(Run(w, es).next.queue) == Unissued(w.queue) + Enqueued(es)
  {
    if es != [] {
      var t := Step(w, es[0]);
      var rest := es[1..];
      RunIsFifo(t.next, rest);
      var u := Run(t.next, rest);
      assert Run(w, es) == Transition(u.next, t.issued + u.issued, t.sent + u.sent);
      assert Enqueued(es) == EnqueuedBy(es[0]) + Enqueued(rest);
      Regroup(t.sent, u.sent, u.next.queue, t.next.queue, Enqueued(rest), w.queue, EnqueuedBy(es[0]));
      Regroup(t.issued, u.issued, Unissued(u.next.queue), Unissued(t.next.queue), Enqueued(rest),
              Unissued(w.queue), EnqueuedBy(es[0]));
    }
  }

  /** One event on a stalled queue: nothing is started or sent, and an
      enqueue only lengthens the queue. */
  lemma StalledStep(w: Writer, e: WriterEvent)
    requires w.closed && !w.inFlight && w.queue != []
    requires Enabled(w, e)
    ensures var t := Step(w, e);
      && t.issued == [] && t.sent == []
      && t.next.closed && !t.next.inFlight && t.next.queue == w.queue + EnqueuedBy(e)
  {
  }

  /** After a failed write the queue is stuck: its front is never popped, and
      no later enqueue or event starts another write. */
  lemma {:induction false} FailedWriteStallsQueue(w: Writer, es: seq<WriterEvent>)
    requires w.closed && !w.inFlight && w.queue != []
    requires Admissible(w, es)
    decreases |es|
    ensures Run(w, es).issued == [] && Run(w, es).sent == []
    ensures Run(w, es).next.queue == w.queue + Enqueued(es)
  {
    if es != [] {
      var t := Step(w, es[0]);
      var rest := es[1..];
      StalledStep(w, es[0]);
      FailedWriteStallsQueue(t.next, rest);
      var u := Run(t.next, rest);
      assert Run(w, es) == Transition(u.next, t.issued + u.issued, t.sent + u.sent);
      assert Enqueued(es) == EnqueuedBy(es[0]) + Enqueued(rest);
      Seqs.Associative(w.queue, EnqueuedBy(es[0]), Enqueued(rest));
    }
  }
}
