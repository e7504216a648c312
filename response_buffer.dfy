/** The response accumulator: `struct data_to_store` and `write_callback`.
    The transport calls the writer once per chunk of the response body it receives. */
module ResponseBuffer {
  import opened CString
  import opened Memory

  /** The growable buffer `write_callback` appends to. */
  class DataToStore {
    var data: array<byte>
    var size: nat

    /** The allocation is exactly one byte longer than the stored bytes, and that byte is
        the NUL terminator. */
    ghost predicate Valid()
      reads this, data
    {
      data.Length == size + 1 && data[size] == 0
    }

    /** The response bytes stored so far. */
    function Contents(): (s: seq<byte>)
      reads this, data
      requires Valid()
      ensures |s| == size && data[..] == s + [0]
    {
      data[..size]
    }

    /** The initial state before the transfer: a one-byte allocation holding only the
        terminator, and nothing stored. */
    constructor ()
      ensures Valid() && fresh(data)
      ensures data.Length == 1 && Contents() == []
    {
      var initial := new byte[1];
      initial[0] := 0;
      data := initial;
      size := 0;
    }

    /** `write_callback`: grow the allocation to hold the chunk and a new terminator, append
        the chunk and return its length. When the allocator has no memory, return 0 and leave
        the buffer as it was, which makes the transport abort the transfer. */
    method Write(contents: seq<byte>, itemSize: nat, nmemb: nat, memoryAvailable: bool) returns (n: nat)
      requires Valid()
      requires |contents| == itemSize * nmemb
      modifies this
      ensures Valid()
      ensures memoryAvailable ==> n == itemSize * nmemb && fresh(data)
      ensures memoryAvailable ==> Contents() == old(Contents()) + contents
      ensures !memoryAvailable ==> n == 0 && data == old(data) && size == old(size)
      ensures !memoryAvailable ==> Contents() == old(Contents())
    {
      var realsize := itemSize * nmemb;
      var ptr := Realloc(data, size + realsize + 1, memoryAvailable);
      if ptr == null {
        return 0;
      }
      ghost var before := data[..size];
      data := ptr;
      assert data[..size] == before;
      MemCpy(data, size, contents, realsize);
      size := size + realsize;
      data[size] := 0;
      assert data[..size] == before + contents;
      return realsize;
    }

    /** What `strdup(response.data)` hands back to the caller: the stored bytes up to the
        first NUL, which is all of them only when the response holds no NUL byte. */
    function Returned(): (s: seq<byte>)
      reads this, data
      requires Valid()
      ensures |s| <= size && s == Contents()[..|s|]
      ensures (forall i :: 0 <= i < size ==> Contents()[i] != 0) ==> s == Contents()
      ensures forall k :: 0 <= k < size && Contents()[k] == 0 ==> |s| <= k
      ensures forall i :: 0 <= i < |s| ==> s[i] != 0
      ensures |s| == size || Contents()[|s|] == 0
    {
      VisibleOfStored(Contents());
      Visible(data[..])
    }
  }
}
