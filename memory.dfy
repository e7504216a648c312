/** The two C library routines the callbacks move bytes with: `memcpy` and `realloc`. */
module Memory {
  import opened CString

  function Min(a: nat, b: nat): (m: nat)
    ensures m <= a && m <= b && (m == a || m == b)
  {
    if a <= b then a else b
  }

  /** `memcpy(&dest[at], src, n)`: the `n` bytes at `at` become the first `n` bytes of `src`;
      every other byte of `dest` keeps its value. */
  method MemCpy(dest: array<byte>, at: nat, src: seq<byte>, n: nat)
    requires n <= |src| && at + n <= dest.Length
    modifies dest
    ensures dest[..] == old(dest[..at]) + src[..n] + old(dest[at + n..])
  {
    for i := 0 to n
      invariant dest[..at] == old(dest[..at])
      invariant dest[at..at + i] == src[..i]
      invariant dest[at + n..] == old(dest[at + n..])
      invariant dest[at + i..] == old(dest[at + i..])
    {
      dest[at + i] := src[i];
      assert dest[at..at + i + 1] == dest[at..at + i] + [src[i]];
    }
    assert dest[..] == dest[..at] + dest[at..at + n] + dest[at + n..];
  }

  /** `realloc(p, newLength)`. When the allocator has memory it returns a fresh block of
      `newLength` bytes that starts with as many of the old bytes as fit; when it has none
      it returns null and `p` is left as it was. */
  method Realloc(p: array<byte>, newLength: nat, memoryAvailable: bool) returns (q: array?<byte>)
    ensures memoryAvailable <==> q != null
    ensures q != null ==> fresh(q) && q.Length == newLength
    ensures q != null ==> q[..Min(p.Length, newLength)] == p[..Min(p.Length, newLength)]
  {
    if !memoryAvailable {
      return null;
    }
    var k := Min(p.Length, newLength);
    q := new byte[newLength];
    MemCpy(q, 0, p[..k], k);
  }
}
