/**
 * The Fostrian decoder: Parse reads a three-byte header (start byte, end byte, encoding
 * code) and then framed nodes up to a stop position; ParseRecursive reads a fixed number
 * of framed children under a node. The pure functions here say what the two loops compute
 * from the stream's bytes; the methods are the loops themselves, proved against them.
 */
module Decoder {
  import opened Bytes
  import opened Outcomes
  import opened Streams
  import opened MarkerScan
  import opened Encodings
  import opened Nodes

  /** The marker ParseRecursive searches for below the top level, whatever the header says. */
  const NestedEndMarker: byte := 3

  /** A decoded node: its payload and its children in stream order. */
  datatype Tree = Tree(payload: seq<byte>, kids: seq<Tree>)

  /** One frame as the decoder reads it: the payload, the child count, and where the cursor ends. */
  datatype FrameRead = FrameRead(payload: seq<byte>, count: int32, next: nat)

  /** A run of decoded siblings and the position after the last of them. */
  datatype Forest = Forest(trees: seq<Tree>, end: nat)

  /** What a successful Parse would build: the header fields and the root's children. */
  datatype Document = Document(startByte: byte, endByte: byte, encoding: TextEncoding, trees: seq<Tree>, end: nat)

  /**
   * Reading one frame at p: Search the marker from p (which checks CanSeek, then CanRead),
   * allocate a payload of e - p - 1 bytes (negative when the marker is missing or sits at
   * p), read it from p, then read four count bytes from e - 1, which must lie inside the
   * stream. The cursor ends at e + 3.
   */
  function FrameAt(src: Source, p: nat, marker: byte): (r: Result<FrameRead>)
    ensures !src.canSeek ==> r == Failure(CannotSeek)
    ensures src.canSeek && !src.canRead ==> r == Failure(CannotRead)
    ensures r.Failure? ==> r.error in {CannotSeek, CannotRead, NegativeLength, ReadPastEnd}
    ensures r.Success? ==>
      && src.canSeek && src.canRead
      && p + 4 <= r.value.next <= |src.data|
      && src.data[r.value.next - 3] == marker
      && r.value.payload == src.data[p..r.value.next - 4]
      && r.value.count == Int32FromLE(src.data[r.value.next - 4..r.value.next])
  {
    if !src.canSeek then Failure(CannotSeek)
    else if !src.canRead then Failure(CannotRead)
    else
      var e := FirstIndexFrom(src.data, p, marker);
      if e - p - 1 < 0 then Failure(NegativeLength)
      else if e + 3 > |src.data| then Failure(ReadPastEnd)
      else Success(FrameRead(src.data[p..e - 1], Int32FromLE(src.data[e - 1..e + 3]), e + 3))
  }

  /**
   * A frame ends at the first marker from its start, and a frame cannot be read exactly
   * when the marker is missing, sits at the start, or lies too close to the end for the count.
   */
  lemma FrameAtFirstMarker(src: Source, p: nat, marker: byte)
    requires src.canSeek && src.canRead
    ensures var r := FrameAt(src, p, marker);
      && (r.Success? ==> forall j :: p <= j < r.value.next - 3 ==> src.data[j] != marker)
      && (r == Failure(NegativeLength) <==>
            (p < |src.data| && src.data[p] == marker) || forall j :: p <= j < |src.data| ==> src.data[j] != marker)
      && (r == Failure(ReadPastEnd) <==>
            exists e :: p < e < |src.data| && src.data[e] == marker && |src.data| < e + 3
              && forall j :: p <= j < e ==> src.data[j] != marker)
  {
    FirstIndexFromIsFirst(src.data, p, marker);
  }

  /** Prepends already decoded siblings to a decoding result; a failure stays the failure. */
  function Prefixed(done: seq<Tree>, r: Result<Forest>): Result<Forest>
  {
    if r.Failure? then r else Success(Forest(done + r.value.trees, r.value.end))
  }

  /** How far a position is from the end of the data; what each decoding step reduces. */
  function Room(length: nat, p: nat): nat
  {
    if p <= length then length - p else 0
  }

  /** One decoded child and the position after its frame and all its descendants. */
  datatype Child = Child(tree: Tree, end: nat)

  /**
   * One child read at p: its frame, framed by the given marker, then, when the frame's
   * count is positive, that many children of its own, framed by the nested marker.
   */
  function ChildAt(src: Source, p: nat, stop: int, marker: byte): (r: Result<Child>)
    decreases Room(|src.data|, p), 1, 0
    ensures r.Success? ==> p + 4 <= r.value.end <= |src.data|
  {
    match FrameAt(src, p, marker)
    case Failure(e) => Failure(e)
    case Success(f) =>
      var kids := KidsOf(src, f, stop);
      if kids.Failure? then Failure(kids.error)
      else Success(Child(Tree(f.payload, kids.value.trees), kids.value.end))
  }

  /** The children of a frame: read by ParseRecursive when the count is positive, none otherwise. */
  function KidsOf(src: Source, f: FrameRead, stop: int): (r: Result<Forest>)
    requires f.next <= |src.data|
    decreases Room(|src.data|, f.next), 3, 0
    ensures r.Success? ==> f.next <= r.value.end <= |src.data|
    ensures r.Success? && f.count > 0 ==> |r.value.trees| == f.count
    ensures r.Success? && f.count <= 0 ==> r.value == Forest([], f.next)
  {
    if f.count > 0 then Siblings(src, f.next, stop, f.count) else Success(Forest([], f.next))
  }

  /**
   * The ParseRecursive loop: n children from p, each refused when the cursor is at or past
   * the stop, and each read with the nested marker.
   */
  function Siblings(src: Source, p: nat, stop: int, n: nat): (r: Result<Forest>)
    decreases Room(|src.data|, p), 2, n
    ensures r.Success? ==> |r.value.trees| == n && p <= r.value.end
    ensures r.Success? && n > 0 ==> r.value.end <= |src.data|
  {
    if n == 0 then Success(Forest([], p))
    else if stop <= p then Failure(PrematureEnd)
    else
      match ChildAt(src, p, stop, NestedEndMarker)
      case Failure(e) => Failure(e)
      case Success(c) => Prefixed([c.tree], Siblings(src, c.end, stop, n - 1))
  }

  /** ParseRecursive as a whole: a count that is not positive is an argument error. */
  function ParseRecursiveSpec(src: Source, p: nat, stop: int, count: int): (r: Result<Forest>)
    ensures count <= 0 ==> r == Failure(CountOutOfRange)
    ensures r.Success? ==> |r.value.trees| == count && p <= r.value.end <= |src.data|
  {
    if count <= 0 then Failure(CountOutOfRange) else Siblings(src, p, stop, count)
  }

  /**
   * The Parse loop: children at the top level, framed by the header's end byte, until the
   * cursor is exactly at the stop position; each one refused when the cursor is past it.
   */
  function TopLevel(src: Source, p: nat, stop: int, marker: byte): (r: Result<Forest>)
    decreases Room(|src.data|, p)
    ensures r.Success? ==> r.value.end == stop && p <= r.value.end
  {
    if p == stop then Success(Forest([], p))
    else if stop <= p then Failure(PrematureEnd)
    else
      match ChildAt(src, p, stop, marker)
      case Failure(e) => Failure(e)
      case Success(c) => Prefixed([c.tree], TopLevel(src, c.end, stop, marker))
  }

  /** _Stop: the length for a negative stop point, else the stop point but never before the cursor. */
  function StopOf(length: nat, pos: nat, stopPoint: int): (stop: int)
    ensures stopPoint < 0 ==> stop == length
    ensures stopPoint >= 0 ==> stop >= pos && stop >= stopPoint
    ensures stopPoint >= 0 ==> stop == pos || stop == stopPoint
  {
    if stopPoint < 0 then length else if stopPoint <= pos then pos else stopPoint
  }

  /**
   * Parse as written: Length and Position cannot be read on a stream that cannot seek; the
   * guard throws whenever the stop is not past the end of the stream; otherwise three
   * header bytes, the encoding they name, and the top-level loop.
   */
  function ParseSpec(src: Source, pos: nat, stopPoint: int, table: Table): (r: Result<Document>)
    ensures !src.canSeek ==> r == Failure(CannotSeek)
    ensures src.canSeek && StopOf(|src.data|, pos, stopPoint) <= |src.data| ==> r == Failure(PrematureEnd)
    ensures r.Success? ==> r == ParseBody(src, pos, StopOf(|src.data|, pos, stopPoint), table)
  {
    if !src.canSeek then Failure(CannotSeek)
    else
      var stop := StopOf(|src.data|, pos, stopPoint);
      if stop <= |src.data| then Failure(PrematureEnd)
      else ParseBody(src, pos, stop, table)
  }

  /**
   * Everything Parse does after its guard: header, encoding lookup, top-level frames. A
   * document it reads holds the three header bytes at pos, the table's encoding for the
   * third, and ends at the stop.
   */
  function ParseBody(src: Source, pos: nat, stop: int, table: Table): (r: Result<Document>)
    ensures !src.canRead ==> r == Failure(CannotRead)
    ensures src.canRead && pos + 3 > |src.data| ==> r == Failure(ReadPastEnd)
    ensures r.Success? ==>
      && src.canRead && pos + 3 <= |src.data| && (src.data[pos + 2] as int) < |table|
      && r.value.startByte == src.data[pos] && r.value.endByte == src.data[pos + 1]
      && r.value.encoding == table[src.data[pos + 2]]
      && r.value.end == stop
  {
    if !src.canRead then Failure(CannotRead)
    else if pos + 3 > |src.data| then Failure(ReadPastEnd)
    else
      var enc := GetFostrianEncoding(table, src.data[pos + 2]);
      if enc.Failure? then Failure(enc.error)
      else
        var top := TopLevel(src, pos + 3, stop, src.data[pos + 1]);
        if top.Failure? then Failure(top.error)
        else Success(Document(src.data[pos], src.data[pos + 1], enc.value, top.value.trees, top.value.end))
  }

  /** Below the stream's end the top-level loop can never reach a stop beyond it. */
  lemma {:induction false} TopLevelFailsShort(src: Source, p: nat, stop: int, marker: byte)
    requires p <= |src.data| < stop
    ensures TopLevel(src, p, stop, marker).Failure?
    decreases Room(|src.data|, p)
  {
    var c := ChildAt(src, p, stop, marker);
    if c.Success? {
      TopLevelFailsShort(src, c.value.end, stop, marker);
    }
  }

  /**
   * Parse as written never returns a tree from a cursor at or before the stream's end: a
   * stop within the stream is refused by the guard, and a stop beyond it is never reached
   * by a cursor that cannot pass the end. A cursor already past the end with a stop at or
   * before it passes the guard; the model then fails at the first header read, where the
   * code reads three bytes 255.
   */
  lemma ParseNeverSucceeds(src: Source, pos: nat, stopPoint: int, table: Table)
    ensures ParseSpec(src, pos, stopPoint, table).Failure?
    ensures !src.canSeek ==> ParseSpec(src, pos, stopPoint, table) == Failure(CannotSeek)
    ensures src.canSeek && stopPoint < 0 ==> ParseSpec(src, pos, stopPoint, table) == Failure(PrematureEnd)
    ensures src.canSeek && pos <= |src.data| && stopPoint <= |src.data| ==>
      ParseSpec(src, pos, stopPoint, table) == Failure(PrematureEnd)
    ensures src.canSeek && src.canRead && pos > |src.data| && 0 <= stopPoint <= pos ==>
      ParseSpec(src, pos, stopPoint, table) == Failure(ReadPastEnd)
  {
    var stop := StopOf(|src.data|, pos, stopPoint);
    if src.canSeek && stop > |src.data| && src.canRead && pos + 3 <= |src.data| {
      TopLevelFailsShort(src, pos + 3, stop, src.data[pos + 1]);
    }
  }

  /**
   * The child count of a frame is read from the byte before the marker onward, so the
   * marker itself is the count's second byte: a nested frame's positive count is at least
   * 3 * 256, whatever number of children the writer meant.
   */
  lemma NestedCountHoldsMarker(src: Source, p: nat)
    requires FrameAt(src, p, NestedEndMarker).Success?
    ensures var f := FrameAt(src, p, NestedEndMarker).value;
      f.count > 0 ==> f.count >= 768
  {
    var f := FrameAt(src, p, NestedEndMarker).value;
    var bs := src.data[f.next - 4..f.next];
    assert bs[1] == NestedEndMarker;
  }

  /** Prepending no siblings changes nothing. */
  lemma PrefixedNothing(r: Result<Forest>)
    ensures Prefixed([], r) == r
  {
    if r.Success? {
      assert [] + r.value.trees == r.value.trees;
    }
  }

  /** Appending decoded siblings in two steps is appending them at once. */
  lemma PrefixedTwice(done: seq<Tree>, t: Tree, r: Result<Forest>)
    ensures Prefixed(done, Prefixed([t], r)) == Prefixed(done + [t], r)
  {
    if r.Success? {
      assert done + ([t] + r.value.trees) == (done + [t]) + r.value.trees;
    }
  }

  /**
   * The heap below a node holds a decoded tree: the node, inside the set S of nodes it may
   * read, carries the tree's payload, is not a root, has the given parent, and its children
   * hold the tree's children in order.
   */
  ghost predicate Realizes(n: FostrianNode, parent: FostrianNode, t: Tree, S: set<FostrianNode>)
    reads S
    decreases t
  {
    && n in S
    && n.data == Some(t.payload) && !n.isRoot && n.parent == parent
    && |n.values| == |t.kids|
    && forall k :: 0 <= k < |t.kids| ==> Realizes(n.values[k], n, t.kids[k], S)
  }

  /** A run of sibling nodes, all with the given parent, holds a run of decoded trees. */
  ghost predicate RealizesAll(ns: seq<FostrianNode>, parent: FostrianNode, ts: seq<Tree>, S: set<FostrianNode>)
    reads S
  {
    |ns| == |ts| && forall k :: 0 <= k < |ts| ==> Realizes(ns[k], parent, ts[k], S)
  }

  /** Realizing a tree only needs the nodes below it: a larger set of nodes keeps it. */
  lemma {:induction false} RealizesGrow(n: FostrianNode, parent: FostrianNode, t: Tree, S: set<FostrianNode>, S2: set<FostrianNode>)
    requires Realizes(n, parent, t, S) && S <= S2
    ensures Realizes(n, parent, t, S2)
    decreases t
  {
    forall k | 0 <= k < |t.kids| ensures Realizes(n.values[k], n, t.kids[k], S2) {
      RealizesGrow(n.values[k], n, t.kids[k], S, S2);
    }
  }

  /** A node whose children realize a tree's children realizes the tree. */
  lemma RealizesNode(n: FostrianNode, parent: FostrianNode, t: Tree, S: set<FostrianNode>, S2: set<FostrianNode>)
    requires RealizesAll(n.values, n, t.kids, S) && S <= S2 && n in S2
    requires n.data == Some(t.payload) && !n.isRoot && n.parent == parent
    ensures Realizes(n, parent, t, S2)
  {
    forall k | 0 <= k < |t.kids| ensures Realizes(n.values[k], n, t.kids[k], S2) {
      RealizesGrow(n.values[k], n, t.kids[k], S, S2);
    }
  }

  /**
   * A node's child list is an old list followed by new children that realize the given
   * trees, within the set S of created nodes.
   */
  ghost predicate Grown(n: FostrianNode, old_values: seq<FostrianNode>, ts: seq<Tree>, S: set<FostrianNode>)
    reads n, S
  {
    && |n.values| == |old_values| + |ts| && n.values[..|old_values|] == old_values
    && RealizesAll(n.values[|old_values|..], n, ts, S)
  }

  /** A grown list that gains one more realized child is still grown. */
  lemma GrownSnoc(n: FostrianNode, old_values: seq<FostrianNode>, before: seq<FostrianNode>, ts: seq<Tree>,
                  S: set<FostrianNode>, x: FostrianNode, t: Tree, S2: set<FostrianNode>)
    requires |before| == |old_values| + |ts| && before[..|old_values|] == old_values
    requires RealizesAll(before[|old_values|..], n, ts, S) && Realizes(x, n, t, S2)
    requires n.values == before + [x]
    ensures Grown(n, old_values, ts + [t], S + S2)
  {
    assert n.values[..|old_values|] == old_values;
    assert n.values[|old_values|..] == before[|old_values|..] + [x];
    RealizesAllSnoc(before[|old_values|..], n, ts, S, x, t, S2);
  }

  /** A realized run and one more realized sibling make a realized run in the union of their nodes. */
  lemma RealizesAllSnoc(ns: seq<FostrianNode>, parent: FostrianNode, ts: seq<Tree>, S: set<FostrianNode>,
                        n: FostrianNode, t: Tree, S2: set<FostrianNode>)
    requires RealizesAll(ns, parent, ts, S) && Realizes(n, parent, t, S2)
    ensures RealizesAll(ns + [n], parent, ts + [t], S + S2)
  {
    forall k | 0 <= k < |ts| ensures Realizes(ns[k], parent, ts[k], S + S2) {
      RealizesGrow(ns[k], parent, ts[k], S, S + S2);
    }
    RealizesGrow(n, parent, t, S2, S + S2);
  }

  /**
   * The frame reading shared by the Parse and ParseRecursive loops: Search for the marker
   * from the cursor, go back, read the payload window and then four count bytes.
   */
  method ReadFrame(stream: Stream, marker: byte) returns (r: Result<FrameRead>)
    modifies stream`pos
    ensures r == FrameAt(old(stream.Snapshot()), old(stream.pos), marker)
    ensures r.Success? ==> stream.pos == r.value.next
  {
    var streamPos := stream.pos;
    var endPoint := Search(stream, marker, -1);
    if endPoint.Failure? {
      return Failure(endPoint.error);
    }
    stream.Seek(streamPos);
    var length := endPoint.value - streamPos - 1;
    if length < 0 {
      return Failure(NegativeLength);
    }
    var dataBytes := stream.Read(length);
    var sizeBytes := stream.Read(4);
    if sizeBytes.Failure? {
      return Failure(sizeBytes.error);
    }
    return Success(FrameRead(dataBytes.value, Int32FromLE(sizeBytes.value), stream.pos));
  }

  /** The outcome of a decoding step: passed, or failed with the same error. */
  function OutcomeOf<T>(r: Result<T>): (o: Outcome)
    ensures o == Pass <==> r.Success?
    ensures o.Fail? ==> o.error == r.error
  {
    if r.Success? then Pass else Fail(r.error)
  }

  /** A new non-root node with the given parent and payload, appended to the parent's children. */
  method Attach(rootnode: FostrianNode, payload: seq<byte>) returns (n: FostrianNode)
    modifies rootnode`values
    ensures fresh(n) && rootnode.values == old(rootnode.values) + [n]
    ensures n.data == Some(payload) && !n.isRoot && n.parent == rootnode && n.values == []
  {
    n := new FostrianNode();
    n.parent := rootnode;
    n.data := Some(payload);
    rootnode.values := rootnode.values + [n];
  }

  /**
   * One child read under rootnode, as both loops do it: read a frame with the given marker,
   * make a new non-root node whose Parent is rootnode and whose Data is the payload, append
   * it to rootnode's children, and, when the frame's count is positive, ParseRecursive
   * under the new node. made is the set of nodes created.
   */
  method ReadChild(stream: Stream, encoding: Option<TextEncoding>, rootnode: FostrianNode, marker: byte, stop: int)
    returns (r: Outcome, node: FostrianNode?, ghost made: set<FostrianNode>)
    modifies stream`pos, rootnode`values
    decreases Room(|stream.data|, stream.pos), 1
    ensures var spec := ChildAt(stream.Snapshot(), old(stream.pos), stop, marker);
      && r == OutcomeOf(spec)
      && (r == Pass ==>
        && node != null && stream.pos == spec.value.end
        && rootnode.values == old(rootnode.values) + [node]
        && Realizes(node, rootnode, spec.value.tree, made))
    ensures fresh(made)
  {
    made := {};
    ghost var src := stream.Snapshot();
    var frame := ReadFrame(stream, marker);
    if frame.Failure? {
      return Fail(frame.error), null, made;
    }
    var n := Attach(rootnode, frame.value.payload);
    var rr, m := ReadKids(stream, encoding, n, frame.value, stop);
    made := m + {n};
    if rr.Fail? {
      return rr, null, made;
    }
    RealizesNode(n, rootnode, Tree(frame.value.payload, KidsOf(src, frame.value, stop).value.trees), m, made);
    return Pass, n, made;
  }

  /**
   * The children of a node just read from frame f: when f's count is positive,
   * ParseRecursive under the node for that many; otherwise none.
   */
  method ReadKids(stream: Stream, encoding: Option<TextEncoding>, n: FostrianNode, f: FrameRead, stop: int)
    returns (r: Outcome, ghost m: set<FostrianNode>)
    requires stream.pos == f.next <= |stream.data| && n.values == []
    modifies stream`pos, n`values
    decreases Room(|stream.data|, stream.pos), 5
    ensures var spec := KidsOf(stream.Snapshot(), f, stop);
      && r == OutcomeOf(spec)
      && (r == Pass ==> stream.pos == spec.value.end && RealizesAll(n.values, n, spec.value.trees, m))
    ensures fresh(m)
  {
    r, m := Pass, {};
    if f.count > 0 {
      r, m := ParseRecursive(stream, encoding, n, f.count, stop);
      if r == Pass {
        assert n.values[0..] == n.values;
      }
    }
  }

  /** One turn of the ParseRecursive loop on the specification: refused, failed, or one more child. */
  lemma SiblingsAdvance(src: Source, p: nat, stop: int, n: nat, done: seq<Tree>, final: Result<Forest>)
    requires 0 < n && final == Prefixed(done, Siblings(src, p, stop, n))
    ensures stop <= p ==> final == Failure(PrematureEnd)
    ensures var c := ChildAt(src, p, stop, NestedEndMarker);
      && (p < stop && c.Failure? ==> final == Failure(c.error))
      && (p < stop && c.Success? ==> final == Prefixed(done + [c.value.tree], Siblings(src, c.value.end, stop, n - 1)))
  {
    var c := ChildAt(src, p, stop, NestedEndMarker);
    if p < stop && c.Success? {
      PrefixedTwice(done, c.value.tree, Siblings(src, c.value.end, stop, n - 1));
    }
  }

  /**
   * ParseRecursive: rootnode and stream must not be null and count must be positive; then
   * its loop reads the children.
   */
  method ParseRecursive(stream: Stream?, encoding: Option<TextEncoding>, rootnode: FostrianNode?, count: int32, stop: int)
    returns (r: Outcome, ghost made: set<FostrianNode>)
    modifies (if stream == null then {} else {stream})`pos, (if rootnode == null then {} else {rootnode})`values
    decreases if stream == null then 0 else Room(|stream.data|, stream.pos), 4
    ensures rootnode == null || stream == null ==> r == Fail(NullArgument)
    ensures rootnode != null && stream != null ==>
      var spec := ParseRecursiveSpec(stream.Snapshot(), old(stream.pos), stop, count);
      && r == OutcomeOf(spec)
      && (r == Pass ==> stream.pos == spec.value.end && Grown(rootnode, old(rootnode.values), spec.value.trees, made))
    ensures fresh(made)
  {
    if rootnode == null || stream == null {
      return Fail(NullArgument), {};
    }
    if count <= 0 {
      return Fail(CountOutOfRange), {};
    }
    r, made := ReadChildren(stream, encoding, rootnode, count, stop);
  }

  /**
   * One turn of the ParseRecursive loop, with n children still to read: refuse a cursor at
   * or past the stop, else read one more child under rootnode with the nested marker; the
   * children read so far, done, extend by its tree.
   */
  method ReadSibling(stream: Stream, encoding: Option<TextEncoding>, rootnode: FostrianNode, stop: int, n: nat,
                     ghost v0: seq<FostrianNode>, ghost done: seq<Tree>, ghost made: set<FostrianNode>,
                     ghost final: Result<Forest>)
    returns (r: Outcome, ghost t: Tree, ghost m: set<FostrianNode>)
    requires 0 < n && final == Prefixed(done, Siblings(stream.Snapshot(), stream.pos, stop, n))
    requires Grown(rootnode, v0, done, made) && rootnode !in made
    modifies stream`pos, rootnode`values
    decreases Room(|stream.data|, stream.pos), 2
    ensures r.Fail? ==> final == Failure(r.error)
    ensures r == Pass ==>
      && old(stream.pos) < stream.pos
      && final == Prefixed(done + [t], Siblings(stream.Snapshot(), stream.pos, stop, n - 1))
      && Grown(rootnode, v0, done + [t], made + m)
    ensures fresh(m)
  {
    t := Tree([], []);
    m := {};
    SiblingsAdvance(stream.Snapshot(), stream.pos, stop, n, done, final);
    if stop <= stream.pos {
      return Fail(PrematureEnd), t, m;
    }
    ghost var before := rootnode.values;
    var node;
    r, node, m := ReadChild(stream, encoding, rootnode, NestedEndMarker, stop);
    if r == Pass {
      t := ChildAt(stream.Snapshot(), old(stream.pos), stop, NestedEndMarker).value.tree;
      GrownSnoc(rootnode, v0, before, done, made, node, t, m);
    }
  }

  /**
   * The loop of ParseRecursive, count times: refuse a cursor at or past the stop, then read
   * one child under rootnode with the nested marker.
   */
  method ReadChildren(stream: Stream, encoding: Option<TextEncoding>, rootnode: FostrianNode, count: nat, stop: int)
    returns (r: Outcome, ghost made: set<FostrianNode>)
    modifies stream`pos, rootnode`values
    decreases Room(|stream.data|, stream.pos), 3
    ensures var spec := Siblings(stream.Snapshot(), old(stream.pos), stop, count);
      && r == OutcomeOf(spec)
      && (r == Pass ==> stream.pos == spec.value.end && Grown(rootnode, old(rootnode.values), spec.value.trees, made))
    ensures fresh(made)
  {
    made := {};
    ghost var src := stream.Snapshot();
    ghost var p0 := stream.pos;
    ghost var v0 := rootnode.values;
    ghost var final := Siblings(src, p0, stop, count);
    ghost var done: seq<Tree> := [];
    PrefixedNothing(final);
    var i := 0;
    r := Pass;
    while i < count
      invariant i <= count && p0 <= stream.pos
      invariant final == Prefixed(done, Siblings(src, stream.pos, stop, count - i))
      invariant Grown(rootnode, v0, done, made) && fresh(made)
    {
      var c, t, m := ReadSibling(stream, encoding, rootnode, stop, count - i, v0, done, made, final);
      made := made + m;
      if c.Fail? {
        r := c;
        break;
      }
      done := done + [t];
      i := i + 1;
    }
  }

  /** One turn of the Parse loop on the specification: refused, failed, or one more top-level child. */
  lemma TopLevelAdvance(src: Source, p: nat, stop: int, marker: byte, done: seq<Tree>, final: Result<Forest>)
    requires p != stop && final == Prefixed(done, TopLevel(src, p, stop, marker))
    ensures stop <= p ==> final == Failure(PrematureEnd)
    ensures var c := ChildAt(src, p, stop, marker);
      && (p < stop && c.Failure? ==> final == Failure(c.error))
      && (p < stop && c.Success? ==> final == Prefixed(done + [c.value.tree], TopLevel(src, c.value.end, stop, marker)))
  {
    var c := ChildAt(src, p, stop, marker);
    if p < stop && c.Success? {
      PrefixedTwice(done, c.value.tree, TopLevel(src, c.value.end, stop, marker));
    }
  }

  /**
   * One turn of the Parse loop: refuse a cursor past the stop, else read one more child
   * under the root with the header's end byte as marker; the children read so far, done,
   * extend by its tree.
   */
  method ReadTopChild(stream: Stream, encoding: Option<TextEncoding>, root: FostrianNode, marker: byte, stop: int,
                      ghost v0: seq<FostrianNode>, ghost done: seq<Tree>, ghost made: set<FostrianNode>,
                      ghost final: Result<Forest>)
    returns (r: Outcome, ghost t: Tree, ghost m: set<FostrianNode>)
    requires stream.pos != stop && final == Prefixed(done, TopLevel(stream.Snapshot(), stream.pos, stop, marker))
    requires Grown(root, v0, done, made) && root !in made
    modifies stream`pos, root`values
    ensures r.Fail? ==> final == Failure(r.error)
    ensures r == Pass ==>
      && old(stream.pos) < stream.pos <= |stream.data|
      && final == Prefixed(done + [t], TopLevel(stream.Snapshot(), stream.pos, stop, marker))
      && Grown(root, v0, done + [t], made + m)
    ensures fresh(m)
  {
    t := Tree([], []);
    m := {};
    TopLevelAdvance(stream.Snapshot(), stream.pos, stop, marker, done, final);
    if stop <= stream.pos {
      return Fail(PrematureEnd), t, m;
    }
    ghost var before := root.values;
    var node;
    r, node, m := ReadChild(stream, encoding, root, marker, stop);
    if r == Pass {
      t := ChildAt(stream.Snapshot(), old(stream.pos), stop, marker).value.tree;
      GrownSnoc(root, v0, before, done, made, node, t, m);
    }
  }

  /**
   * The root Parse returns for a decoded document: a root without data or parent whose
   * header fields are the document's and whose children realize its top-level trees.
   */
  ghost predicate BuiltRoot(root: FostrianNode, doc: Document, S: set<FostrianNode>)
    reads root, S
  {
    && root.isRoot && root.data == None && root.parent == null
    && root.encodingField == Some(doc.encoding)
    && root.startByteField == doc.startByte && root.endByteField == doc.endByte
    && Grown(root, [], doc.trees, S)
  }

  /**
   * The top-level loop of Parse: until the cursor sits on the stop, read one more child
   * under the root with the header's end byte as marker.
   */
  method ReadTopLevel(stream: Stream, encoding: Option<TextEncoding>, root: FostrianNode, marker: byte, stop: int)
    returns (r: Outcome, ghost made: set<FostrianNode>)
    modifies stream`pos, root`values
    ensures var spec := TopLevel(stream.Snapshot(), old(stream.pos), stop, marker);
      && r == OutcomeOf(spec)
      && (r == Pass ==> stream.pos == spec.value.end && Grown(root, old(root.values), spec.value.trees, made))
    ensures fresh(made)
  {
    made := {};
    ghost var src := stream.Snapshot();
    ghost var v0 := root.values;
    ghost var final := TopLevel(src, stream.pos, stop, marker);
    ghost var done: seq<Tree> := [];
    PrefixedNothing(final);
    r := Pass;
    while stream.pos != stop
      invariant final == Prefixed(done, TopLevel(src, stream.pos, stop, marker))
      invariant Grown(root, v0, done, made) && fresh(made)
      decreases Room(|stream.data|, stream.pos)
    {
      var c, t, m := ReadTopChild(stream, encoding, root, marker, stop, v0, done, made, final);
      made := made + m;
      if c.Fail? {
        r := c;
        break;
      }
      done := done + [t];
    }
  }

  /** The three header bytes: start byte, end byte and encoding code. */
  datatype Header = Header(startByte: byte, endByte: byte, code: byte)

  /** The header reads of Parse: three single-byte reads, the first failure reported. */
  method ReadHeader(stream: Stream) returns (r: Result<Header>)
    modifies stream`pos
    ensures !stream.canRead ==> r == Failure(CannotRead)
    ensures stream.canRead && old(stream.pos) + 3 > |stream.data| ==> r == Failure(ReadPastEnd)
    ensures stream.canRead && old(stream.pos) + 3 <= |stream.data| ==>
      && stream.pos == old(stream.pos) + 3
      && r == Success(Header(stream.data[old(stream.pos)], stream.data[old(stream.pos) + 1], stream.data[old(stream.pos) + 2]))
  {
    var b0 := stream.ReadByte();
    if b0.Failure? {
      return Failure(b0.error);
    }
    var b1 := stream.ReadByte();
    if b1.Failure? {
      return Failure(b1.error);
    }
    var b2 := stream.ReadByte();
    if b2.Failure? {
      return Failure(b2.error);
    }
    return Success(Header(b0.value, b1.value, b2.value));
  }

  /** The root of Parse: a new node marked as root, then its encoding, start byte and end byte set. */
  method MakeRoot(encoding: TextEncoding, startByte: byte, endByte: byte) returns (root: FostrianNode)
    ensures fresh(root)
    ensures root.isRoot && root.data == None && root.parent == null && root.values == []
    ensures root.encodingField == Some(encoding) && root.startByteField == startByte && root.endByteField == endByte
  {
    root := new FostrianNode();
    root.isRoot := true;
    root.SetEncoding(Some(encoding));
    root.SetStartByte(startByte);
    root.SetEndByte(endByte);
  }

  /**
   * Parse after its guard: read the header, look up its encoding, make the root, then read
   * the top-level children.
   */
  method ReadDocument(stream: Stream, table: Table, stop: int) returns (r: Result<FostrianNode>, ghost made: set<FostrianNode>)
    modifies stream`pos
    ensures var spec := ParseBody(stream.Snapshot(), old(stream.pos), stop, table);
      && (r.Success? <==> spec.Success?)
      && (r.Failure? ==> r.error == spec.error)
      && (r.Success? ==> stream.pos == spec.value.end && BuiltRoot(r.value, spec.value, made))
    ensures r.Success? ==> fresh(r.value)
    ensures fresh(made)
  {
    made := {};
    var header := ReadHeader(stream);
    if header.Failure? {
      return Failure(header.error), made;
    }
    var encoding := GetFostrianEncoding(table, header.value.code);
    if encoding.Failure? {
      return Failure(encoding.error), made;
    }
    var root := MakeRoot(encoding.value, header.value.startByte, header.value.endByte);
    var c;
    c, made := ReadTopLevel(stream, Some(encoding.value), root, header.value.endByte, stop);
    if c.Fail? {
      return Failure(c.error), made;
    }
    return Success(root), made;
  }

  /**
   * Parse(stream, stopPoint): a null stream is refused, and so is one that cannot seek, whose
   * Length and Position cannot be read; the stop is computed from the stop point, and the
   * guard throws whenever that stop is not past the stream's length.
   */
  method Parse(stream: Stream?, table: Table, stopPoint: int) returns (r: Result<FostrianNode>, ghost made: set<FostrianNode>)
    modifies (if stream == null then {} else {stream})`pos
    ensures stream == null ==> r == Failure(NullArgument)
    ensures stream != null ==>
      var spec := ParseSpec(stream.Snapshot(), old(stream.pos), stopPoint, table);
      && (r.Success? <==> spec.Success?)
      && (r.Failure? ==> r.error == spec.error)
      && (r.Success? ==> stream.pos == spec.value.end && BuiltRoot(r.value, spec.value, made))
    ensures r.Success? ==> fresh(r.value)
    ensures fresh(made)
  {
    made := {};
    if stream == null {
      return Failure(NullArgument), made;
    }
    if !stream.canSeek {
      return Failure(CannotSeek), made;
    }
    var stop := StopOf(stream.Length(), stream.pos, stopPoint);
    if stop <= stream.Length() {
      return Failure(PrematureEnd), made;
    }
    r, made := ReadDocument(stream, table, stop);
  }
}
