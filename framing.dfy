// The chat_message frame, kept abstract: its header width, its maximum body
// length and the way a length is written into and read back from the header
// are not fixed here, so they travel as a Codec value.
module Framing {
  import opened Bytes

  datatype Option<T> = None | Some(value: T)

  /** One frame: the header region followed by the body region
      (`data()` and `length()` cover both). */
  datatype Message = Message(header: seq<byte>, body: seq<byte>)

  /** The chat_message operations this client relies on:
      - headerLength: `chat_message::header_length`, the bytes a header read asks for;
      - encode: what `encode_header()` writes for a given body length;
      - decode: `decode_header()`, `None` when it returns false, otherwise the
        body length it stores;
      - setLength: what `body_length(k)` stores when asked for k. */
  datatype Codec = Codec(
    headerLength: nat,
    encode: nat -> seq<byte>,
    decode: seq<byte> -> Option<nat>,
    setLength: nat -> nat)
  {
    /** The body-length setter never makes a body longer than asked (it clamps
        to the capacity), which keeps the `memcpy` from the serial buffer in
        bounds. */
    ghost predicate NeverLengthens() {
      forall k: nat :: setLength(k) <= k
    }
  }
}
