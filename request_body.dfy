/** The POST body reader: `struct data_to_send` and `read_callback`.
    The transport calls the reader repeatedly, each time offering a buffer of
    `size * nmemb` bytes, until it returns 0. */
module RequestBody {
  import opened CString
  import opened Memory

  /** What one call does to the unread part of the body: the bytes it hands out and what stays unread. */
  datatype Step = Step(chunk: seq<byte>, rest: seq<byte>)

  /** One call offering `capacity` bytes: hand out as much of the unread part as fits. */
  function ReadStep(remaining: seq<byte>, capacity: nat): (s: Step)
    ensures |s.chunk| == Min(|remaining|, capacity)
    ensures s.chunk + s.rest == remaining
  {
    if |remaining| != 0 then
      var n := if |remaining| > capacity then capacity else |remaining|;
      Step(remaining[..n], remaining[n..])
    else
      Step([], remaining)
  }

  /** The chunks returned by successive calls offering buffers of the given capacities. */
  function Chunks(remaining: seq<byte>, capacities: seq<nat>): (cs: seq<seq<byte>>)
    ensures |cs| == |capacities|
    decreases |capacities|
  {
    if capacities == [] then []
    else
      var s := ReadStep(remaining, capacities[0]);
      [s.chunk] + Chunks(s.rest, capacities[1..])
  }

  /** What is still unread after those calls. */
  function Unread(remaining: seq<byte>, capacities: seq<nat>): seq<byte>
    decreases |capacities|
  {
    if capacities == [] then remaining
    else Unread(ReadStep(remaining, capacities[0]).rest, capacities[1..])
  }

  /** The chunks laid end to end, as the transport puts them on the wire. */
  function Concat(cs: seq<seq<byte>>): seq<byte>
  {
    if cs == [] then [] else cs[0] + Concat(cs[1..])
  }

  predicate AllPositive(capacities: seq<nat>)
  {
    forall k :: 0 <= k < |capacities| ==> capacities[k] > 0
  }

  /** Nothing is lost or reordered: the chunks handed out, followed by what is still unread,
      are exactly the body. */
  lemma {:induction false} ChunksCover(remaining: seq<byte>, capacities: seq<nat>)
    ensures Concat(Chunks(remaining, capacities)) + Unread(remaining, capacities) == remaining
    decreases |capacities|
  {
    if capacities != [] {
      var s := ReadStep(remaining, capacities[0]);
      ChunksCover(s.rest, capacities[1..]);
      var cs := Chunks(remaining, capacities);
      assert cs[0] == s.chunk && cs[1..] == Chunks(s.rest, capacities[1..]);
    }
  }

  /** With buffers of positive capacity, at most one call per byte is needed: after
      `|remaining|` calls the body is drained. */
  lemma {:induction false} UnreadDrained(remaining: seq<byte>, capacities: seq<nat>)
    requires AllPositive(capacities) && |remaining| <= |capacities|
    ensures Unread(remaining, capacities) == []
    decreases |capacities|
  {
    if capacities != [] {
      var s := ReadStep(remaining, capacities[0]);
      UnreadDrained(s.rest, capacities[1..]);
    }
  }

  /** Every call made once `|remaining|` calls have been made returns 0: the reader
      signals the end of the body. */
  lemma {:induction false} LateChunksEmpty(remaining: seq<byte>, capacities: seq<nat>, k: nat)
    requires AllPositive(capacities) && |remaining| <= k < |capacities|
    ensures Chunks(remaining, capacities)[k] == []
    decreases |capacities|
  {
    var s := ReadStep(remaining, capacities[0]);
    if k > 0 {
      LateChunksEmpty(s.rest, capacities[1..], k - 1);
    }
  }

  /** With positive capacities the reader hands out the whole body, in order, and then
      returns 0 on every later call. */
  lemma {:induction false} ReaderDrainsBody(remaining: seq<byte>, capacities: seq<nat>)
    requires AllPositive(capacities) && |remaining| < |capacities|
    ensures Concat(Chunks(remaining, capacities)) == remaining
    ensures forall k :: |remaining| <= k < |capacities| ==> Chunks(remaining, capacities)[k] == []
  {
    ChunksCover(remaining, capacities);
    UnreadDrained(remaining, capacities);
    forall k | |remaining| <= k < |capacities|
      ensures Chunks(remaining, capacities)[k] == []
    {
      LateChunksEmpty(remaining, capacities, k);
    }
  }

  /** With buffers of positive capacity a call returns 0 only once the body is drained, so
      whichever call first returns 0, and the transport stops there, the chunks before it
      are exactly the body. */
  lemma {:induction false} SentBeforeEmptyChunk(remaining: seq<byte>, capacities: seq<nat>, k: nat)
    requires AllPositive(capacities) && k < |capacities|
    requires Chunks(remaining, capacities)[k] == []
    ensures Concat(Chunks(remaining, capacities)[..k]) == remaining
    decreases |capacities|
  {
    var s := ReadStep(remaining, capacities[0]);
    var cs := Chunks(remaining, capacities);
    assert cs[0] == s.chunk && cs[1..] == Chunks(s.rest, capacities[1..]);
    if k == 0 {
      assert cs[..0] == [];
    } else {
      SentBeforeEmptyChunk(s.rest, capacities[1..], k - 1);
      var prefix := cs[..k];
      assert prefix[0] == s.chunk && prefix[1..] == Chunks(s.rest, capacities[1..])[..k - 1];
    }
  }

  /** The state `read_callback` works on: a cursor into the caller's JSON string. */
  class DataToSend {
    /** The caller's C string, terminating NUL included. */
    const json: seq<byte>
    /** How far `data` has advanced from the start of `json`. */
    var offset: nat
    /** How many bytes are still to be sent. */
    var size: nat

    ghost predicate Valid()
      reads this
    {
      offset + size <= |json|
    }

    /** The unread part of the body. */
    function Remaining(): (r: seq<byte>)
      reads this
      requires Valid()
      ensures |r| == size
    {
      json[offset..offset + size]
    }

    /** Setting up the body to send: the cursor at the start of `json`, and `strlen(json)`
        bytes to go, which is also the length declared to the transport. */
    constructor (json: seq<byte>)
      requires Terminated(json)
      ensures Valid() && this.json == json && offset == 0
      ensures size == CStrLen(json) && Remaining() == Visible(json)
    {
      this.json := json;
      offset := 0;
      size := CStrLen(json);
    }

    /** `read_callback`: copy as much of the unread body as fits in `dest`, advance the cursor
        past it and return the count; 0 once the body is exhausted or when `dest` has no room. */
    method Read(dest: array<byte>, itemSize: nat, nmemb: nat) returns (n: nat)
      requires Valid()
      requires itemSize * nmemb <= dest.Length
      modifies this`offset, this`size, dest
      ensures Valid()
      ensures n == Min(old(size), itemSize * nmemb)
      ensures offset == old(offset) + n && size == old(size) - n
      ensures dest[..] == old(Remaining())[..n] + old(dest[n..])
      ensures Step(dest[..n], Remaining()) == ReadStep(old(Remaining()), itemSize * nmemb)
    {
      var bufferSize := itemSize * nmemb;
      if size != 0 {
        var copyThisMuch := size;
        if copyThisMuch > bufferSize {
          copyThisMuch := bufferSize;
        }
        MemCpy(dest, 0, json[offset..], copyThisMuch);
        offset := offset + copyThisMuch;
        size := size - copyThisMuch;
        return copyThisMuch;
      }
      return 0;
    }
  }

  /** The POST body is delivered in full: with buffers of positive capacity the chunks add up
      to the first `strlen(json)` bytes of the caller's string, which is the length declared as
      the POST size, and every call after that returns 0. Whichever call first returns 0 ends
      the transfer, and the chunks before it are that same body. */
  lemma PostBodyDelivered(json: seq<byte>, capacities: seq<nat>)
    requires Terminated(json)
    requires AllPositive(capacities) && CStrLen(json) < |capacities|
    ensures Concat(Chunks(Visible(json), capacities)) == json[..CStrLen(json)]
    ensures |Concat(Chunks(Visible(json), capacities))| == CStrLen(json)
    ensures Chunks(Visible(json), capacities)[CStrLen(json)] == []
    ensures forall k :: 0 <= k < |capacities| && Chunks(Visible(json), capacities)[k] == [] ==>
      Concat(Chunks(Visible(json), capacities)[..k]) == json[..CStrLen(json)]
  {
    ReaderDrainsBody(Visible(json), capacities);
    forall k | 0 <= k < |capacities| && Chunks(Visible(json), capacities)[k] == []
      ensures Concat(Chunks(Visible(json), capacities)[..k]) == json[..CStrLen(json)]
    {
      SentBeforeEmptyChunk(Visible(json), capacities, k);
    }
  }
}
