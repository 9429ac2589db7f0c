/**
 * What Recreate's output is, stated apart from the order of its writes: when a whole tree
 * can be written, how many bytes that takes, and where each field of a node's frame lands.
 */
module EncoderLaws {
  import opened Bytes
  import opened Outcomes
  import opened Encodings
  import opened Encoder

  /**
   * Every node of the shape can be written: its parent chain ends at a root, it has data,
   * and when it is a root itself its encoding is in the table.
   */
  predicate Writable(v: Shape, table: Table)
    decreases v
  {
    && v.marks.Some? && v.data.Some?
    && (v.isRoot ==> v.encoding.Some? && v.encoding.value in table)
    && forall k :: 0 <= k < |v.kids| ==> Writable(v.kids[k], table)
  }

  /** The errors Recreate can stop with once its arguments are accepted. */
  predicate WriteError(e: Error)
  {
    e == NullParent || e == NullData || e == EncodingNotImplemented
  }

  /** The bytes a writable node takes: a root's header, its frame, and its children's bytes. */
  function Volume(v: Shape): nat
    decreases v, 1
  {
    (if v.isRoot then 3 else 0)
    + (if v.data.Some? then |v.data.value| else 0) + 6
    + KidsVolume(v.kids, |v.kids|)
  }

  /** The bytes of the first n shapes of vs. */
  function KidsVolume(vs: seq<Shape>, n: nat): nat
    requires n <= |vs|
    decreases vs, n
  {
    if n == 0 then 0 else KidsVolume(vs, n - 1) + Volume(vs[n - 1])
  }

  /** The frame of a node comes out whole exactly when the node can be written. */
  lemma FramePasses(v: Shape, table: Table)
    ensures Frame(v, table).outcome == Pass <==>
      v.marks.Some? && v.data.Some? && (v.isRoot ==> v.encoding.Some? && v.encoding.value in table)
    ensures Frame(v, table).outcome.Fail? ==> WriteError(Frame(v, table).outcome.error)
  {
    if v.isRoot && v.encoding.Some? {
      var i := LeastIndex(table, v.encoding.value, 0);
      assert i >= 0 <==> v.encoding.value in table;
    }
  }

  /**
   * Recreate writes a whole tree without an exception exactly when every node in it can be
   * written; otherwise it stops with a missing parent, missing data or an unknown encoding.
   */
  lemma {:induction false} WriteSucceeds(v: Shape, table: Table)
    ensures Emit(v, table).outcome == Pass <==> Writable(v, table)
    ensures Emit(v, table).outcome.Fail? ==> WriteError(Emit(v, table).outcome.error)
    decreases v, 1
  {
    FramePasses(v, table);
    KidsSucceed(v.kids, |v.kids|, table);
  }

  /** The children's writes succeed exactly when each of the first n children can be written. */
  lemma {:induction false} KidsSucceed(vs: seq<Shape>, n: nat, table: Table)
    requires n <= |vs|
    ensures EmitKids(vs, n, table).outcome == Pass <==> forall k :: 0 <= k < n ==> Writable(vs[k], table)
    ensures EmitKids(vs, n, table).outcome.Fail? ==> WriteError(EmitKids(vs, n, table).outcome.error)
    decreases vs, n
  {
    if n > 0 {
      KidsSucceed(vs, n - 1, table);
      WriteSucceeds(vs[n - 1], table);
    }
  }

  /** A tree that can be written takes exactly its volume in bytes. */
  lemma {:induction false} WriteVolume(v: Shape, table: Table)
    requires Writable(v, table)
    ensures |Emit(v, table).bytes| == Volume(v)
    decreases v, 1
  {
    FramePasses(v, table);
    KidsVolumeIs(v.kids, |v.kids|, table);
  }

  /** The first n children, all writable, take their volumes in bytes. */
  lemma {:induction false} KidsVolumeIs(vs: seq<Shape>, n: nat, table: Table)
    requires n <= |vs| && forall k :: 0 <= k < n ==> Writable(vs[k], table)
    ensures EmitKids(vs, n, table).outcome == Pass
    ensures |EmitKids(vs, n, table).bytes| == KidsVolume(vs, n)
    decreases vs, n
  {
    if n > 0 {
      KidsVolumeIs(vs, n - 1, table);
      WriteSucceeds(vs[n - 1], table);
      WriteVolume(vs[n - 1], table);
    }
  }

  /**
   * The header writes: none for a node that is not a root; for a root, its start byte and
   * end byte, then the code of its encoding, or NotImplementedException after two bytes
   * when the encoding has no code.
   */
  lemma HeadBytes(v: Shape, table: Table)
    ensures !v.isRoot ==> Head(v, table) == Emitted([], Pass)
    ensures v.isRoot && v.marks.Some? ==>
      var h, sb, eb := Head(v, table), v.marks.value.startByte, v.marks.value.endByte;
      && (h.outcome == Pass <==> v.encoding.Some? && v.encoding.value in table)
      && (h.outcome == Pass ==> h.bytes == [sb, eb, CodeOf(table, v.encoding).value])
      && (h.outcome.Fail? ==> h == Emitted([sb, eb], Fail(EncodingNotImplemented)))
  {
    if v.isRoot && v.encoding.Some? {
      var i := LeastIndex(table, v.encoding.value, 0);
      assert i >= 0 <==> v.encoding.value in table;
    }
  }

  /**
   * The frame writes: nothing before a null parent on the chain, the start byte before null
   * data, and otherwise StartByte, Data, EndByte and the four bytes of the child count.
   */
  lemma BodyBytes(v: Shape)
    ensures Body(v).outcome == Pass <==> v.marks.Some? && v.data.Some?
    ensures v.marks.None? ==> Body(v) == Emitted([], Fail(NullParent))
    ensures v.marks.Some? && v.data.None? ==> Body(v) == Emitted([v.marks.value.startByte], Fail(NullData))
    ensures v.marks.Some? && v.data.Some? ==>
      var b, d := Body(v).bytes, v.data.value;
      && |b| == |d| + 6
      && b[0] == v.marks.value.startByte && b[1..1 + |d|] == d && b[1 + |d|] == v.marks.value.endByte
      && (|v.kids| < TwoTo31 ==> Int32FromLE(b[2 + |d|..]) == |v.kids|)
  {
    if v.marks.Some? && v.data.Some? {
      FrameFields([], v.marks.value.startByte, v.data.value, v.marks.value.endByte, |v.kids|, []);
    }
  }

  /** Where a node's frame starts in its bytes: after the three header bytes of a root. */
  function FrameStart(v: Shape): nat
  {
    if v.isRoot then 3 else 0
  }

  /**
   * The header of a writable root: its start byte, its end byte and a code that
   * GetFostrianEncoding maps back to its encoding, for a table of at most 256 entries.
   */
  lemma HeaderLayout(v: Shape, table: Table)
    requires Writable(v, table) && v.isRoot
    ensures var b := Emit(v, table).bytes;
      && |b| >= 3
      && b[0] == v.marks.value.startByte && b[1] == v.marks.value.endByte
      && (|table| <= 256 ==> GetFostrianEncoding(table, b[2]) == Success(v.encoding.value))
  {
    FramePasses(v, table);
    var c := CodeOf(table, v.encoding).value;
    assert Head(v, table).bytes == [v.marks.value.startByte, v.marks.value.endByte, c];
    assert Emit(v, table).bytes[..3] == Head(v, table).bytes;
    if |table| <= 256 {
      CodeThenEncoding(table, v.encoding.value);
    }
  }

  /**
   * The frame of a writable node, after the header of a root: the start byte, the data, the
   * end byte and four bytes that read back as the child count, then the children's bytes.
   */
  lemma FrameLayout(v: Shape, table: Table)
    requires Writable(v, table)
    ensures var b, h, d := Emit(v, table).bytes, FrameStart(v), v.data.value;
      && |b| >= h + |d| + 6
      && b[h] == v.marks.value.startByte && b[h + 1..h + 1 + |d|] == d && b[h + 1 + |d|] == v.marks.value.endByte
      && (|v.kids| < TwoTo31 ==> Int32FromLE(b[h + 2 + |d|..h + 6 + |d|]) == |v.kids|)
      && b[h + 6 + |d|..] == EmitKids(v.kids, |v.kids|, table).bytes
  {
    FramePasses(v, table);
    var hb, rest := Head(v, table).bytes, EmitKids(v.kids, |v.kids|, table).bytes;
    assert |hb| == FrameStart(v);
    assert Emit(v, table).bytes == hb + Body(v).bytes + rest;
    FrameFields(hb, v.marks.value.startByte, v.data.value, v.marks.value.endByte, |v.kids|, rest);
  }

  /** Where the fields of a frame lie after h header bytes, with more bytes after it. */
  lemma FrameFields(hb: seq<byte>, sb: byte, d: seq<byte>, eb: byte, n: nat, rest: seq<byte>)
    ensures var b, h := hb + ([sb] + d + [eb] + Int32ToLE(n)) + rest, |hb|;
      && |b| == h + |d| + 6 + |rest|
      && b[..h] == hb
      && b[h] == sb && b[h + 1..h + 1 + |d|] == d && b[h + 1 + |d|] == eb
      && (n < TwoTo31 ==> Int32FromLE(b[h + 2 + |d|..h + 6 + |d|]) == n)
      && b[h + 6 + |d|..] == rest
  {
    var b, h := hb + ([sb] + d + [eb] + Int32ToLE(n)) + rest, |hb|;
    assert b[h + 2 + |d|..h + 6 + |d|] == Int32ToLE(n);
    if n < TwoTo31 {
      Int32RoundTrip(n);
    }
  }
}
