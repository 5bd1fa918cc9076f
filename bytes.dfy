// Bytes and NUL-terminated C strings, as the bridge uses them: the serial
// buffer is `unsigned char[4096]`, its length is taken with `strlen`, and the
// received body is handed to the serial driver as a C string.
module Bytes {

  newtype byte = x: int | 0 <= x < 256

  const NUL: byte := 0

  /** The length `strlen` reports: the index of the first NUL, or |s| when
      there is none (`strlen` itself needs one; see StrLen). */
  function CStrLen(s: seq<byte>): (k: nat)
    ensures k <= |s|
    ensures forall i :: 0 <= i < k ==> s[i] != NUL
    ensures k < |s| ==> s[k] == NUL
  {
    if s == [] || s[0] == NUL then 0 else 1 + CStrLen(s[1..])
  }

  /** The bytes a C-string consumer sees: everything before the first NUL. */
  function CStringPrefix(s: seq<byte>): (p: seq<byte>)
    ensures |p| <= |s| && p == s[..|p|]
    ensures NUL !in p
    ensures |p| < |s| ==> s[|p|] == NUL
    ensures NUL !in s ==> p == s
  {
    s[..CStrLen(s)]
  }

  /** The first NUL fixes the string length: any index with a NUL and no NUL
      before it is CStrLen. */
  lemma CStrLenAt(s: seq<byte>, k: nat)
    requires k < |s| && s[k] == NUL
    requires forall i :: 0 <= i < k ==> s[i] != NUL
    ensures CStrLen(s) == k
  {
  }

  /** `strlen` over a byte array that holds a terminator somewhere. */
  method StrLen(a: array<byte>) returns (k: nat)
    requires exists j :: 0 <= j < a.Length && a[j] == NUL
    ensures k < a.Length && a[k] == NUL
    ensures forall i :: 0 <= i < k ==> a[i] != NUL
    ensures k == CStrLen(a[..])
  {
    k := 0;
    while a[k] != NUL
      invariant k < a.Length
      invariant exists j :: k <= j < a.Length && a[j] == NUL
      invariant forall i :: 0 <= i < k ==> a[i] != NUL
      decreases a.Length - k
    {
      k := k + 1;
    }
    CStrLenAt(a[..], k);
  }
}
