// What the serial-capture path does to the polled bytes before they become a
// chat message: terminate them, and replace control bytes other than CR and
// LF by '*'.
module Sanitiser {
  import opened Bytes

  const CR: byte := 13
  const LF: byte := 10
  const Star: byte := 42  // '*'

  /** The bytes the loop rewrites: below 32, other than CR and LF. The
      terminator's value is among them; line breaks and '*' are not. */
  function IsUnreadable(b: byte): (u: bool)
    ensures b == NUL ==> u
    ensures u ==> b != CR && b != LF && b != Star
  {
    b < 32 && b != CR && b != LF
  }

  /** One pass of the loop body on one byte: it becomes '*' exactly when it
      is unreadable, every other byte (a polled '*' included) is kept, and
      what comes out is never unreadable, so never NUL. */
  function SanitiseByte(b: byte): (r: byte)
    ensures r == b <==> !IsUnreadable(b)
    ensures r != b ==> r == Star
    ensures !IsUnreadable(r) && r != NUL
  {
    if IsUnreadable(b) then Star else b
  }

  /** The sanitised form of the n polled bytes. */
  function Sanitised(s: seq<byte>): (r: seq<byte>)
    ensures |r| == |s|
  {
    seq(|s|, i requires 0 <= i < |s| => SanitiseByte(s[i]))
  }

  /** The whole buffer after the loop body has run on a poll of n bytes:
      sanitised bytes, the terminator at n, and the stale rest untouched. */
  function SanitisedBuffer(b: seq<byte>, n: nat): (r: seq<byte>)
    requires n < |b|
    ensures |r| == |b|
    ensures forall i :: 0 <= i < n ==> r[i] == SanitiseByte(b[i])
    ensures r[n] == NUL
    ensures forall i :: n < i < |b| ==> r[i] == b[i]
  {
    Sanitised(b[..n]) + [NUL] + b[n + 1..]
  }

  /** No sanitised byte is NUL, because NUL (0) is itself unreadable. */
  lemma SanitisedHasNoNul(s: seq<byte>)
    ensures NUL !in Sanitised(s)
  {
    forall i | 0 <= i < |s| ensures Sanitised(s)[i] != NUL {
      assert Sanitised(s)[i] == SanitiseByte(s[i]);
    }
  }

  /** Hence `strlen` of the terminated, sanitised buffer is exactly the poll
      count, whatever stale bytes lie beyond the terminator. */
  lemma {:induction false} StrLenIsPollCount(b: seq<byte>, n: nat)
    requires n < |b|
    ensures CStrLen(SanitisedBuffer(b, n)) == n
  {
    var r := SanitisedBuffer(b, n);
    forall i | 0 <= i < n ensures r[i] != NUL {
      assert r[i] == SanitiseByte(b[i]);
    }
    CStrLenAt(r, n);
  }

  /** A second pass changes nothing: '*' is not below 32. */
  lemma {:induction false} SanitisedIdempotent(s: seq<byte>)
    ensures Sanitised(Sanitised(s)) == Sanitised(s)
  {
    forall i | 0 <= i < |s| ensures Sanitised(Sanitised(s))[i] == Sanitised(s)[i] {
      assert Sanitised(s)[i] == SanitiseByte(s[i]);
    }
  }

  /** Running the loop body twice on the same poll count leaves the buffer as
      one run did. */
  lemma {:induction false} SanitisedBufferIdempotent(b: seq<byte>, n: nat)
    requires n < |b|
    ensures SanitisedBuffer(SanitisedBuffer(b, n), n) == SanitisedBuffer(b, n)
  {
    var r := SanitisedBuffer(b, n);
    forall i | 0 <= i < n ensures SanitiseByte(r[i]) == r[i] {
      assert r[i] == SanitiseByte(b[i]);
    }
  }
}
