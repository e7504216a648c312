/** C strings as byte sequences: what `strlen` and `strdup` see of a buffer. */
module CString {

  /** A C `char`, as the 8-bit value that `memcpy` moves. */
  type byte = bv8

  /** A buffer is a C string when it holds a terminating NUL somewhere. */
  predicate Terminated(buf: seq<byte>)
  {
    exists i :: 0 <= i < |buf| && buf[i] == 0
  }

  /** `strlen`: the index of the first NUL byte. */
  function CStrLen(buf: seq<byte>): (n: nat)
    requires Terminated(buf)
    ensures n < |buf| && buf[n] == 0
    ensures forall i :: 0 <= i < n ==> buf[i] != 0
  {
    if buf[0] == 0 then 0
    else
      assert Terminated(buf[1..]) by {
        var i :| 0 <= i < |buf| && buf[i] == 0;
        assert buf[1..][i - 1] == 0;
      }
      1 + CStrLen(buf[1..])
  }

  /** The bytes a C consumer (such as `strdup`) sees of a NUL-terminated buffer. */
  function Visible(buf: seq<byte>): (s: seq<byte>)
    requires Terminated(buf)
    ensures |s| == CStrLen(buf) && s == buf[..|s|]
    ensures forall i :: 0 <= i < |s| ==> s[i] != 0
  {
    buf[..CStrLen(buf)]
  }

  /** Bytes followed by one NUL, as the response buffer stores them. */
  lemma {:induction false} TerminatedAppend(s: seq<byte>)
    ensures Terminated(s + [0])
  {
    assert (s + [0])[|s|] == 0;
  }

  /** What a C consumer (such as `strdup`) sees of stored bytes followed by one NUL: all of
      them when none is NUL, and otherwise only those before the first embedded NUL. */
  lemma {:induction false} VisibleOfStored(s: seq<byte>)
    ensures Terminated(s + [0])
    ensures (forall i :: 0 <= i < |s| ==> s[i] != 0) ==> Visible(s + [0]) == s
    ensures forall k :: 0 <= k < |s| && s[k] == 0 ==> |Visible(s + [0])| <= k
  {
    TerminatedAppend(s);
    assert forall i :: 0 <= i < |s| ==> (s + [0])[i] == s[i];
  }
}
