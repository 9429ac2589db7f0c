/**
 * Four places where the code does something other than what it evidently means to do.
 * For each, the behaviour as written (modelled in the modules the code belongs to) is
 * shown on a concrete input, and the intended behaviour is defined here with the property
 * it was meant to have.
 */
module Findings {
  import opened Bytes
  import opened Outcomes
  import opened Streams
  import opened MarkerScan
  import opened Encodings
  import ChildList
  import Decoder
  import Encoder

  // ---------------------------------------------------------------------------------------
  // RemoveAll: the index moves on after a removal, so the element that slid into the
  // removed one's place is never matched against the predicate.

  /** RemoveAll as written keeps the second of two matching children. */
  lemma RemoveAllSkipsNeighbour()
    ensures ChildList.RemoveAllFrom([1, 2], 0, (x: int) => true).0 == [2]
  {
    var p := (x: int) => true;
    assert ChildList.RemoveFirst([1, 2], 1) == [2];
    assert ChildList.RemoveAllFrom([2], 1, p) == ([2], []);
  }

  /** What RemoveAll means: the list without the elements the predicate matches, in order. */
  function Unmatched<T>(s: seq<T>, p: T -> bool): (r: seq<T>)
    ensures |r| <= |s|
  {
    if |s| == 0 then [] else (if p(s[0]) then [] else [s[0]]) + Unmatched(s[1..], p)
  }

  /**
   * The intended RemoveAll keeps exactly the elements the predicate does not match, each
   * with all its copies, and drops every copy of the others.
   */
  lemma {:induction false} UnmatchedKeeps<T>(s: seq<T>, p: T -> bool, x: T)
    ensures x in Unmatched(s, p) <==> x in s && !p(x)
    ensures multiset(Unmatched(s, p))[x] == if p(x) then 0 else multiset(s)[x]
    decreases |s|
  {
    if |s| > 0 {
      assert s == [s[0]] + s[1..];
      UnmatchedKeeps(s[1..], p, x);
    }
  }

  /**
   * The intended RemoveAll keeps the survivors in their order: filtering a list split in two
   * is filtering each part, so a survivor before another in the list stays before it.
   */
  lemma {:induction false} UnmatchedInOrder<T>(a: seq<T>, b: seq<T>, p: T -> bool)
    ensures Unmatched(a + b, p) == Unmatched(a, p) + Unmatched(b, p)
    decreases |a|
  {
    if |a| == 0 {
      assert a + b == b;
    } else {
      var head := if p(a[0]) then [] else [a[0]];
      assert (a + b)[0] == a[0] && (a + b)[1..] == a[1..] + b;
      assert Unmatched(a + b, p) == head + Unmatched(a[1..] + b, p);
      UnmatchedInOrder(a[1..], b, p);
      assert Unmatched(a, p) == head + Unmatched(a[1..], p);
    }
  }

  /** On one element the intended RemoveAll keeps it exactly when it does not match. */
  lemma UnmatchedOne<T>(x: T, p: T -> bool)
    ensures Unmatched([x], p) == if p(x) then [] else [x]
  {
    assert [x][1..] == [];
  }

  /** RemoveAll meant: no matching element is left, on the same input that keeps one as written. */
  lemma IntendedRemoveAllEmpties()
    ensures Unmatched([1, 2], (x: int) => true) == []
  {
  }

  // ---------------------------------------------------------------------------------------
  // RemoveRange (and Clear, which is RemoveRange(0, Size)): RemoveAt(i) for a rising i on a
  // list that shrinks by one each time removes every other element and runs off the end.

  /** RemoveRange(0, 3) as written on three children removes the first and the third, leaves the second, and fails. */
  lemma RemoveRangeKeepsMiddle()
    ensures ChildList.RemoveRangeFrom([1, 2, 3], 0, 3) == ChildList.RangeRemoval([2], [1, 3], false)
  {
    assert ChildList.RemoveFirst([1, 2, 3], 1) == [2, 3];
    assert ChildList.RemoveFirst([2, 3], 3) == [2];
    assert ChildList.RemoveRangeFrom([2], 2, 3) == ChildList.RangeRemoval([2], [], false);
  }

  /**
   * What RemoveRange means: the count elements from index are gone and the others keep
   * their order; a range outside the list is an index error.
   */
  function RangeRemoved<T>(s: seq<T>, index: int, count: int): (r: Result<seq<T>>)
    ensures r.Success? <==> 0 <= index && 0 <= count && index + count <= |s|
    ensures r.Failure? ==> r.error == IndexOutOfRange
    ensures r.Success? ==>
      && |r.value| == |s| - count
      && r.value[..index] == s[..index] && r.value[index..] == s[index + count..]
      && multiset(r.value) + multiset(s[index..index + count]) == multiset(s)
  {
    if 0 <= index && 0 <= count && index + count <= |s| then
      var r := s[..index] + s[index + count..];
      assert s == s[..index] + s[index..index + count] + s[index + count..];
      assert r[..index] == s[..index];
      assert r[index..] == s[index + count..];
      Success(r)
    else Failure(IndexOutOfRange)
  }

  /** Clear meant: RemoveRange(0, Size) leaves no child, whatever the number of children. */
  lemma IntendedClearEmpties<T>(s: seq<T>)
    ensures RangeRemoved(s, 0, |s|) == Success([])
  {
  }

  // ---------------------------------------------------------------------------------------
  // Parse: the guard throws "End of stream reached prematurely" when the stop is at or
  // before the end of the stream, which is exactly when the stream can be read.

  /**
   * Parse with the guard the message describes: a stop beyond the end of the stream is
   * refused. A stream it accepts yields the root of the three header bytes at the cursor,
   * with the table's encoding for the third, and the cursor ends at the stop; a stream
   * holding just a header before the stop yields that root with no children.
   */
  function IntendedParse(src: Source, pos: nat, stopPoint: int, table: Table): (r: Result<Decoder.Document>)
    ensures !src.canSeek ==> r == Failure(CannotSeek)
    ensures src.canSeek && Decoder.StopOf(|src.data|, pos, stopPoint) > |src.data| ==> r == Failure(PrematureEnd)
    ensures r.Success? ==>
      && src.canSeek && src.canRead
      && pos + 3 <= Decoder.StopOf(|src.data|, pos, stopPoint) <= |src.data|
      && (src.data[pos + 2] as int) < |table|
      && r.value.startByte == src.data[pos] && r.value.endByte == src.data[pos + 1]
      && r.value.encoding == table[src.data[pos + 2]]
      && r.value.end == Decoder.StopOf(|src.data|, pos, stopPoint)
    ensures (src.canSeek && src.canRead && pos + 3 == Decoder.StopOf(|src.data|, pos, stopPoint) <= |src.data|
             && (src.data[pos + 2] as int) < |table|) ==>
      r == Success(Decoder.Document(src.data[pos], src.data[pos + 1], table[src.data[pos + 2]], [], pos + 3))
  {
    if !src.canSeek then Failure(CannotSeek)
    else
      var stop := Decoder.StopOf(|src.data|, pos, stopPoint);
      if stop > |src.data| then Failure(PrematureEnd) else Decoder.ParseBody(src, pos, stop, table)
  }

  /**
   * A stream holding only a header whose code is in the table: Parse as written refuses it,
   * while the intended guard reads it as a root with the header's fields and no children.
   */
  lemma IntendedParseReadsHeader(src: Source, table: Table)
    requires src.canSeek && src.canRead && |src.data| == 3 && (src.data[2] as int) < |table|
    ensures Decoder.ParseSpec(src, 0, -1, table) == Failure(PrematureEnd)
    ensures IntendedParse(src, 0, -1, table)
      == Success(Decoder.Document(src.data[0], src.data[1], table[src.data[2]], [], 3))
  {
  }

  /**
   * The corrected guard keeps the comparison with the stream's length that the code makes;
   * a stop at or before the cursor still passes it and is refused by the loop's own check
   * once the header is read.
   */
  lemma IntendedParseRefusesStopAtCursor(src: Source, pos: nat, stopPoint: int, table: Table)
    requires src.canSeek && src.canRead && 0 <= stopPoint <= pos
    requires pos + 3 <= |src.data| && (src.data[pos + 2] as int) < |table|
    ensures IntendedParse(src, pos, stopPoint, table) == Failure(PrematureEnd)
  {
  }

  // ---------------------------------------------------------------------------------------
  // The frame reader: Recreate writes StartByte, Data, EndByte, then four count bytes, and
  // Parse reads e - p - 1 bytes (the length of Data) for the frame at p whose EndByte is at
  // e, but it reads them from p, the start byte, and then takes the count from e - 1,
  // the last data byte, so the end byte is read as part of the count.

  /** A leaf written by Recreate with start byte 2, data [65] and end byte 3, and the frame Parse reads from it. */
  lemma FrameMisreadsLeaf()
    ensures var leaf := Encoder.Shape(false, None, Some(Encoder.Marks(2, 3)), Some([65]), []);
      && Encoder.Body(leaf).bytes == [2, 65, 3, 0, 0, 0, 0]
      && Decoder.FrameAt(Source([2, 65, 3, 0, 0, 0, 0], true, true), 0, 3)
         == Success(Decoder.FrameRead([2], 833, 5))
  {
    var leaf := Encoder.Shape(false, None, Some(Encoder.Marks(2, 3)), Some([65]), []);
    assert Int32ToLE(0) == [0, 0, 0, 0];
    assert Encoder.Body(leaf).bytes == [2] + [65] + [3] + [0, 0, 0, 0];
    var data: seq<byte> := [2, 65, 3, 0, 0, 0, 0];
    assert FirstIndexFrom(data, 2, 3) == 2;
    assert FirstIndexFrom(data, 0, 3) == FirstIndexFrom(data, 1, 3) == 2;
    assert data[1..5] == [65, 3, 0, 0];
    assert Int32FromLE([65, 3, 0, 0]) == 833;
    assert data[0..1] == [2];
    assert Decoder.FrameAt(Source(data, true, true), 0, 3) == Success(Decoder.FrameRead([2], 833, 5));
  }

  /**
   * The frame as evidently intended: skip the start byte, read the e - p - 1 data bytes up
   * to the end byte, skip it, then read the four count bytes.
   */
  function IntendedFrameAt(src: Source, p: nat, marker: byte): (r: Result<Decoder.FrameRead>)
    ensures r.Success? ==>
      && p + 6 <= r.value.next <= |src.data|
      && src.data[r.value.next - 5] == marker
      && r.value.payload == src.data[p + 1..r.value.next - 5]
      && r.value.count == Int32FromLE(src.data[r.value.next - 4..r.value.next])
  {
    if !src.canSeek then Failure(CannotSeek)
    else if !src.canRead then Failure(CannotRead)
    else
      var e := FirstIndexFrom(src.data, p, marker);
      if e - p - 1 < 0 then Failure(NegativeLength)
      else if e + 5 > |src.data| then Failure(ReadPastEnd)
      else Success(Decoder.FrameRead(src.data[p + 1..e], Int32FromLE(src.data[e + 1..e + 5]), e + 5))
  }

  /** The scan from start stops at e when e holds the byte and nothing between them does. */
  lemma {:induction false} FirstIndexFromAt(data: seq<byte>, start: nat, e: nat, b: byte)
    requires start <= e < |data| && data[e] == b
    requires forall j :: start <= j < e ==> data[j] != b
    ensures FirstIndexFrom(data, start, b) == e
    decreases e - start
  {
    if start < e {
      FirstIndexFromAt(data, start + 1, e, b);
    }
  }

  /**
   * The intended reader recovers what Recreate wrote for a node whose start byte differs
   * from the end byte and whose data does not hold the end byte: the data, the child count,
   * and a cursor just past the frame.
   */
  lemma IntendedFrameReadsBody(src: Source, p: nat, v: Encoder.Shape)
    requires src.canSeek && src.canRead
    requires v.marks.Some? && v.data.Some? && |v.kids| < TwoTo31
    requires v.marks.value.startByte != v.marks.value.endByte && v.marks.value.endByte !in v.data.value
    requires p + |Encoder.Body(v).bytes| <= |src.data|
    requires src.data[p..p + |Encoder.Body(v).bytes|] == Encoder.Body(v).bytes
    ensures IntendedFrameAt(src, p, v.marks.value.endByte)
      == Success(Decoder.FrameRead(v.data.value, |v.kids|, p + |Encoder.Body(v).bytes|))
  {
    var sb, d, eb := v.marks.value.startByte, v.data.value, v.marks.value.endByte;
    var body := Encoder.Body(v).bytes;
    var size := Int32ToLE(|v.kids|);
    assert body == [sb] + d + [eb] + size;
    var e := p + 1 + |d|;
    var w := src.data[p..p + |body|];
    forall j | p <= j < e
      ensures src.data[j] != eb
    {
      assert src.data[j] == w[j - p];
      if j > p {
        assert w[j - p] == d[j - p - 1];
      }
    }
    assert src.data[e] == w[1 + |d|];
    FirstIndexFromAt(src.data, p, e, eb);
    assert body[1..1 + |d|] == d;
    assert body[2 + |d|..6 + |d|] == size;
    SliceOfSlice(src.data, p, p + |body|, 1, 1 + |d|);
    SliceOfSlice(src.data, p, p + |body|, 2 + |d|, 6 + |d|);
    assert src.data[p + 1..e] == d;
    assert src.data[e + 1..e + 5] == size;
    Int32RoundTrip(|v.kids|);
  }

  /** A slice of a slice is the slice at the shifted bounds. */
  lemma SliceOfSlice<T>(s: seq<T>, a: nat, b: nat, i: nat, j: nat)
    requires a <= b <= |s| && i <= j <= b - a
    ensures s[a..b][i..j] == s[a + i..a + j]
  {
    forall k | 0 <= k < j - i
      ensures s[a..b][i..j][k] == s[a + i..a + j][k]
    {
      assert s[a..b][i..j][k] == s[a..b][i + k] == s[a + i + k];
    }
  }
}
