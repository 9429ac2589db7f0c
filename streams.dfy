/** A seekable byte stream: the in-memory data, the cursor and the capability flags. */
module Streams {
  import opened Bytes
  import opened Outcomes

  /** What a reader of the stream can see: its bytes and whether it can seek and read. */
  datatype Source = Source(data: seq<byte>, canSeek: bool, canRead: bool)

  function Max(a: int, b: int): int { if a < b then b else a }

  /**
   * The stream's bytes after writing bs at position p: bytes before p are kept (a gap
   * beyond the old end reads as zeros), bs replaces what was at [p, p + |bs|), and
   * whatever lay beyond is kept.
   */
  function Overwrite(d: seq<byte>, p: nat, bs: seq<byte>): (r: seq<byte>)
    ensures |r| == Max(|d|, p + |bs|)
  {
    seq(Max(|d|, p + |bs|), k requires 0 <= k < Max(|d|, p + |bs|) =>
      if p <= k < p + |bs| then bs[k - p] else if k < |d| then d[k] else 0)
  }

  /** A write puts bs at [p, p + |bs|) and leaves every other byte as it was, or zero in a gap. */
  lemma OverwriteBytes(d: seq<byte>, p: nat, bs: seq<byte>)
    ensures Overwrite(d, p, bs)[p..p + |bs|] == bs
    ensures forall k :: 0 <= k < |Overwrite(d, p, bs)| && !(p <= k < p + |bs|) ==>
      Overwrite(d, p, bs)[k] == if k < |d| then d[k] else 0
  {
  }

  /** Two consecutive writes leave the stream as one write of both byte runs. */
  lemma OverwriteTwice(d: seq<byte>, p: nat, a: seq<byte>, b: seq<byte>)
    ensures Overwrite(Overwrite(d, p, a), p + |a|, b) == Overwrite(d, p, a + b)
  {
    var lhs := Overwrite(Overwrite(d, p, a), p + |a|, b);
    var rhs := Overwrite(d, p, a + b);
    assert |lhs| == |rhs|;
    forall k | 0 <= k < |lhs| ensures lhs[k] == rhs[k] {
      if p + |a| <= k < p + |a| + |b| {
        assert lhs[k] == b[k - p - |a|] == (a + b)[k - p];
      } else if p <= k < p + |a| {
        assert lhs[k] == Overwrite(d, p, a)[k] == a[k - p];
      }
    }
  }

  /** Writing nothing at or before the end changes nothing. */
  lemma OverwriteNothing(d: seq<byte>, p: nat)
    requires p <= |d|
    ensures Overwrite(d, p, []) == d
  {
  }

  /**
   * The stream's bytes after a run of writes whose bytes, together, are bs, starting at p:
   * no write leaves the bytes alone, and any run of writes is one write of all their bytes.
   */
  function Wrote(d: seq<byte>, p: nat, bs: seq<byte>): seq<byte>
  {
    if |bs| == 0 then d else Overwrite(d, p, bs)
  }

  /** A run of writes followed by another is one run of both. */
  lemma WroteMore(d: seq<byte>, p: nat, a: seq<byte>, b: seq<byte>)
    ensures Wrote(Wrote(d, p, a), p + |a|, b) == Wrote(d, p, a + b)
  {
    if |a| == 0 {
      assert a + b == b;
    } else if |b| == 0 {
      assert a + b == a;
    } else {
      OverwriteTwice(d, p, a, b);
    }
  }

  /** After a run of writes, one more write (even of nothing) at the cursor extends the run. */
  lemma WroteThenWrite(d: seq<byte>, p: nat, a: seq<byte>, b: seq<byte>)
    requires |a| > 0
    ensures Overwrite(Wrote(d, p, a), p + |a|, b) == Wrote(d, p, a + b)
  {
    WroteMore(d, p, a, b);
    if |b| == 0 {
      OverwriteNothing(Overwrite(d, p, a), p + |a|);
    }
  }

  class Stream {
    var data: seq<byte>
    var pos: nat
    const canSeek: bool
    const canRead: bool
    const canWrite: bool

    constructor (data: seq<byte>, pos: nat, canSeek: bool, canRead: bool, canWrite: bool)
      ensures this.data == data && this.pos == pos
      ensures this.canSeek == canSeek && this.canRead == canRead && this.canWrite == canWrite
    {
      this.data := data;
      this.pos := pos;
      this.canSeek := canSeek;
      this.canRead := canRead;
      this.canWrite := canWrite;
    }

    function Length(): nat
      reads this`data
    {
      |data|
    }

    function Snapshot(): Source
      reads this`data
    {
      Source(data, canSeek, canRead)
    }

    /** Setting Position; the callers in the source have checked CanSeek first. */
    method Seek(p: nat)
      requires canSeek
      modifies this`pos
      ensures pos == p
    {
      pos := p;
    }

    /** ReadByte: the byte at the cursor, which then moves past it. */
    method ReadByte() returns (r: Result<byte>)
      modifies this`pos
      ensures !canRead ==> r == Failure(CannotRead)
      ensures canRead && old(pos) >= |data| ==> r == Failure(ReadPastEnd)
      ensures canRead && old(pos) < |data| ==> r == Success(data[old(pos)])
      ensures pos == if r.Success? then old(pos) + 1 else old(pos)
    {
      if !canRead {
        return Failure(CannotRead);
      }
      if pos >= |data| {
        return Failure(ReadPastEnd);
      }
      r := Success(data[pos]);
      pos := pos + 1;
    }

    /** Read(buffer, 0, count): the next count bytes, which the cursor then moves past. */
    method Read(count: nat) returns (r: Result<seq<byte>>)
      modifies this`pos
      ensures !canRead ==> r == Failure(CannotRead)
      ensures canRead && old(pos) + count > |data| ==> r == Failure(ReadPastEnd)
      ensures canRead && old(pos) + count <= |data| ==> r == Success(data[old(pos)..old(pos) + count])
      ensures pos == if r.Success? then old(pos) + count else old(pos)
    {
      if !canRead {
        return Failure(CannotRead);
      }
      if pos + count > |data| {
        return Failure(ReadPastEnd);
      }
      r := Success(data[pos..pos + count]);
      pos := pos + count;
    }

    /** Write(bytes, 0, n) and WriteByte; the callers in the source have checked CanWrite first. */
    method Write(bs: seq<byte>)
      requires canWrite
      modifies this
      ensures data == Overwrite(old(data), old(pos), bs)
      ensures pos == old(pos) + |bs|
    {
      data := Overwrite(data, pos, bs);
      pos := pos + |bs|;
    }
  }
}
