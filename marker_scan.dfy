/** The marker scan: a forward search for one byte value that leaves the cursor where it was. */
module MarkerScan {
  import opened Bytes
  import opened Outcomes
  import opened Streams

  /** The least index at or after start that holds b, or -1 when there is none. */
  function FirstIndexFrom(data: seq<byte>, start: nat, b: byte): (r: int)
    decreases |data| - start
    ensures r == -1 || (start <= r < |data| && data[r] == b)
  {
    if start >= |data| then -1
    else if data[start] == b then start
    else FirstIndexFrom(data, start + 1, b)
  }

  /** The scan finds the first occurrence: no earlier position from start holds b, and -1 means none does. */
  lemma {:induction false} FirstIndexFromIsFirst(data: seq<byte>, start: nat, b: byte)
    ensures FirstIndexFrom(data, start, b) == -1 ==> forall j :: start <= j < |data| ==> data[j] != b
    ensures FirstIndexFrom(data, start, b) != -1 ==> forall j :: start <= j < FirstIndexFrom(data, start, b) ==> data[j] != b
    decreases |data| - start
  {
    if start < |data| && data[start] != b {
      FirstIndexFromIsFirst(data, start + 1, b);
    }
  }

  /**
   * Search: checks CanSeek and CanRead, then reads the stream from startPos (the current
   * position when startPos is negative) up to its end, and returns the first position
   * holding the byte, or -1. The cursor is put back where it was.
   */
  method Search(stream: Stream, search: byte, startPos: int) returns (r: Result<int>)
    modifies stream`pos
    ensures stream.pos == old(stream.pos)
    ensures !stream.canSeek ==> r == Failure(CannotSeek)
    ensures stream.canSeek && !stream.canRead ==> r == Failure(CannotRead)
    ensures stream.canSeek && stream.canRead ==>
      r == Success(FirstIndexFrom(stream.data, if startPos < 0 then old(stream.pos) else startPos, search))
  {
    if !stream.canSeek {
      return Failure(CannotSeek);
    }
    if !stream.canRead {
      return Failure(CannotRead);
    }
    var streamPos := stream.pos;
    var start: nat := if startPos < 0 then streamPos else startPos;
    var i := start;
    while i < stream.Length()
      invariant start <= i
      invariant FirstIndexFrom(stream.data, i, search) == FirstIndexFrom(stream.data, start, search)
    {
      stream.Seek(i);
      var v := stream.ReadByte();
      if v.value == search {
        stream.Seek(streamPos);
        return Success(i);
      }
      i := i + 1;
    }
    stream.Seek(streamPos);
    return Success(-1);
  }
}
