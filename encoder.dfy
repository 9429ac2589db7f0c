/**
 * The Fostrian encoder. Recreate writes a node to a seekable, writable stream: the
 * three-byte header when the node is a root, then the frame StartByte, Data, EndByte and
 * the little-endian child count, then every child in list order the same way.
 */
module Encoder {
  import opened Bytes
  import opened Outcomes
  import opened Streams
  import opened Encodings
  import opened Nodes

  /** The start and end byte a node's getters return, from the root its parent chain ends at. */
  datatype Marks = Marks(startByte: byte, endByte: byte)

  /**
   * What Recreate reads from a node and the nodes below it, as a value: the root flag and
   * own encoding, the marks of the root its parent chain ends at (none when the chain ends
   * at a null parent), the data, and the shape of each child in list order.
   */
  datatype Shape = Shape(isRoot: bool, encoding: Option<TextEncoding>, marks: Option<Marks>,
                         data: Option<seq<byte>>, kids: seq<Shape>)

  /** The parent chain each visited node's getters walk. */
  type Chains = map<FostrianNode, seq<FostrianNode>>

  /** The marks the getters of a node with this chain return. */
  ghost function MarksOf(chain: seq<FostrianNode>): Option<Marks>
    requires IsAncestry(chain)
    reads chain
  {
    var root := RootOf(chain);
    if root == null then None else Some(Marks(root.startByteField, root.endByteField))
  }

  /**
   * n and the nodes below it, within the node set S and with their parent chains in
   * chains, hold the values of shape t.
   */
  ghost predicate Describes(n: FostrianNode, t: Shape, chains: Chains, S: set<FostrianNode>)
    reads S
    decreases t
  {
    && n in S && n in chains
    && (forall i :: 0 <= i < |chains[n]| ==> chains[n][i] in S)
    && IsAncestry(chains[n]) && chains[n][0] == n
    && t.isRoot == n.isRoot && t.encoding == n.encodingField
    && t.marks == MarksOf(chains[n]) && t.data == n.data
    && |t.kids| == |n.values|
    && forall k :: 0 <= k < |t.kids| ==> Describes(n.values[k], t.kids[k], chains, S)
  }

  /** What a run of writes did: the bytes written, and whether it ended by throwing. */
  datatype Emitted = Emitted(bytes: seq<byte>, outcome: Outcome)

  /** One run of writes after another; nothing after a failure. */
  function Then(a: Emitted, b: Emitted): (r: Emitted)
    ensures a.outcome.Fail? ==> r == a
    ensures a.outcome == Pass ==> r.bytes == a.bytes + b.bytes && r.outcome == b.outcome
  {
    if a.outcome.Fail? then a else Emitted(a.bytes + b.bytes, b.outcome)
  }

  /**
   * The header of a root: its start byte and end byte, then the code of its encoding,
   * whose lookup fails after the first two bytes are written. Other nodes write none.
   */
  function Head(v: Shape, table: Table): Emitted
  {
    if !v.isRoot || v.marks.None? then Emitted([], Pass)
    else
      match CodeOf(table, v.encoding)
      case Failure(e) => Emitted([v.marks.value.startByte, v.marks.value.endByte], Fail(e))
      case Success(c) => Emitted([v.marks.value.startByte, v.marks.value.endByte, c], Pass)
  }

  /**
   * The frame of a node: the start byte of its root (a null parent on the way fails before
   * any byte), its data (null data fails after the start byte), the end byte of its root
   * and its child count.
   */
  function Body(v: Shape): Emitted
  {
    if v.marks.None? then Emitted([], Fail(NullParent))
    else if v.data.None? then Emitted([v.marks.value.startByte], Fail(NullData))
    else Emitted([v.marks.value.startByte] + v.data.value + [v.marks.value.endByte] + Int32ToLE(|v.kids|), Pass)
  }

  /** All the writes of Recreate on a node of shape v: the header, the frame, then the children. */
  function Emit(v: Shape, table: Table): Emitted
    decreases v, 0
  {
    Then(Frame(v, table), EmitKids(v.kids, |v.kids|, table))
  }

  /** The writes of a node before its children: the header, then the frame. */
  function Frame(v: Shape, table: Table): Emitted
  {
    Then(Head(v, table), Body(v))
  }

  /** The writes of the first n children, in list order, stopping at the first failure. */
  function EmitKids(vs: seq<Shape>, n: nat, table: Table): Emitted
    requires n <= |vs|
    decreases vs, n
  {
    if n == 0 then Emitted([], Pass) else Then(EmitKids(vs, n - 1, table), Emit(vs[n - 1], table))
  }

  /** Once the children's writes have failed, later children add nothing. */
  lemma {:induction false} EmitKidsStops(vs: seq<Shape>, m: nat, n: nat, table: Table)
    requires m <= n <= |vs| && EmitKids(vs, m, table).outcome.Fail?
    ensures EmitKids(vs, n, table) == EmitKids(vs, m, table)
    decreases n
  {
    if m < n {
      EmitKidsStops(vs, m, n - 1, table);
    }
  }

  /** The stream after the writes e, begun at position p0 on contents d0. */
  ghost predicate After(s: Stream, d0: seq<byte>, p0: nat, e: Emitted)
    reads s
  {
    s.data == Wrote(d0, p0, e.bytes) && s.pos == p0 + |e.bytes|
  }

  /**
   * Recreate(node, CopyTo): a null node or stream, or a stream that cannot seek or cannot
   * write, is refused before any byte is written; otherwise it writes what Emit describes,
   * and a failure on the way leaves what was written before it.
   */
  method Recreate(node: FostrianNode?, copyTo: Stream?, table: Table, ghost v: Shape, ghost chains: Chains, ghost S: set<FostrianNode>)
    returns (r: Outcome)
    requires node != null ==> Describes(node, v, chains, S)
    modifies copyTo
    decreases v, 3
    ensures node == null || copyTo == null ==> r == Fail(NullArgument)
    ensures node != null && copyTo != null && !copyTo.canSeek ==> r == Fail(CannotSeek)
    ensures node != null && copyTo != null && copyTo.canSeek && !copyTo.canWrite ==> r == Fail(CannotWrite)
    ensures copyTo != null && (node == null || !copyTo.canSeek || !copyTo.canWrite) ==>
      copyTo.data == old(copyTo.data) && copyTo.pos == old(copyTo.pos)
    ensures node != null && copyTo != null && copyTo.canSeek && copyTo.canWrite ==>
      r == Emit(v, table).outcome && After(copyTo, old(copyTo.data), old(copyTo.pos), Emit(v, table))
  {
    if node == null || copyTo == null {
      return Fail(NullArgument);
    }
    if !copyTo.canSeek {
      return Fail(CannotSeek);
    }
    if !copyTo.canWrite {
      return Fail(CannotWrite);
    }
    r := RecreateNode(node, copyTo, table, v, chains, S);
  }

  /** Recreate after its checks: the header of a root, the frame, then the children. */
  method RecreateNode(node: FostrianNode, copyTo: Stream, table: Table, ghost v: Shape, ghost chains: Chains, ghost S: set<FostrianNode>)
    returns (r: Outcome)
    requires copyTo.canSeek && copyTo.canWrite && Describes(node, v, chains, S)
    modifies copyTo
    decreases v, 2
    ensures r == Emit(v, table).outcome
    ensures After(copyTo, old(copyTo.data), old(copyTo.pos), Emit(v, table))
  {
    ghost var d0, p0 := copyTo.data, copyTo.pos;
    ghost var frame, kids := Frame(v, table), EmitKids(v.kids, |v.kids|, table);
    r := WriteFrame(node, copyTo, table, v, chains, S);
    if r.Fail? {
      return;
    }
    r := WriteKids(node, copyTo, table, v, chains, S);
    WroteMore(d0, p0, frame.bytes, kids.bytes);
  }

  /** The writes before the children: the header of a root, then the frame. */
  method WriteFrame(node: FostrianNode, copyTo: Stream, table: Table, ghost v: Shape, ghost chains: Chains, ghost S: set<FostrianNode>)
    returns (r: Outcome)
    requires copyTo.canWrite && Describes(node, v, chains, S)
    modifies copyTo
    ensures r == Frame(v, table).outcome
    ensures After(copyTo, old(copyTo.data), old(copyTo.pos), Frame(v, table))
  {
    ghost var d0, p0 := copyTo.data, copyTo.pos;
    ghost var head, body := Head(v, table), Body(v);
    r := WriteHead(node, copyTo, table, v, chains, S);
    if r.Fail? {
      return;
    }
    r := WriteBody(node, copyTo, v, chains, S);
    WroteMore(d0, p0, head.bytes, body.bytes);
  }

  /** The header writes of a root, through its own getters; a non-root writes nothing. */
  method WriteHead(node: FostrianNode, copyTo: Stream, table: Table, ghost v: Shape, ghost chains: Chains, ghost S: set<FostrianNode>)
    returns (r: Outcome)
    requires copyTo.canWrite && Describes(node, v, chains, S)
    modifies copyTo
    ensures r == Head(v, table).outcome
    ensures After(copyTo, old(copyTo.data), old(copyTo.pos), Head(v, table))
  {
    if !node.isRoot {
      return Pass;
    }
    var startByte := node.StartByte(chains[node]);
    copyTo.Write([startByte.value]);
    var endByte := node.EndByte(chains[node]);
    copyTo.Write([endByte.value]);
    OverwriteTwice(old(copyTo.data), old(copyTo.pos), [startByte.value], [endByte.value]);
    var code := GetFostrianCode(table, node.Encoding(chains[node]).value);
    if code.Failure? {
      return Fail(code.error);
    }
    copyTo.Write([code.value]);
    OverwriteTwice(old(copyTo.data), old(copyTo.pos), [startByte.value, endByte.value], [code.value]);
    r := Pass;
  }

  /** The frame writes: StartByte, Data, EndByte, then the child count as four bytes. */
  method WriteBody(node: FostrianNode, copyTo: Stream, ghost v: Shape, ghost chains: Chains, ghost S: set<FostrianNode>) returns (r: Outcome)
    requires copyTo.canWrite && Describes(node, v, chains, S)
    modifies copyTo
    ensures r == Body(v).outcome
    ensures After(copyTo, old(copyTo.data), old(copyTo.pos), Body(v))
  {
    ghost var d0, p0 := copyTo.data, copyTo.pos;
    var startByte := node.StartByte(chains[node]);
    if startByte.Failure? {
      return Fail(startByte.error);
    }
    copyTo.Write([startByte.value]);
    if node.data.None? {
      return Fail(NullData);
    }
    var data := node.data.value;
    copyTo.Write(data);
    WroteThenWrite(d0, p0, [startByte.value], data);
    var endByte := node.EndByte(chains[node]);
    copyTo.Write([endByte.value]);
    WroteThenWrite(d0, p0, [startByte.value] + data, [endByte.value]);
    var size := Int32ToLE(node.Size());
    copyTo.Write(size);
    WroteThenWrite(d0, p0, [startByte.value] + data + [endByte.value], size);
    r := Pass;
  }

  /** The loop over the children: Recreate(node[i]) for i below Size, stopping at a failure. */
  method WriteKids(node: FostrianNode, copyTo: Stream, table: Table, ghost v: Shape, ghost chains: Chains, ghost S: set<FostrianNode>)
    returns (r: Outcome)
    requires copyTo.canSeek && copyTo.canWrite && Describes(node, v, chains, S)
    modifies copyTo
    decreases v, 1
    ensures r == EmitKids(v.kids, |v.kids|, table).outcome
    ensures After(copyTo, old(copyTo.data), old(copyTo.pos), EmitKids(v.kids, |v.kids|, table))
  {
    var i := 0;
    while i < node.Size()
      invariant i <= |v.kids| == node.Size() && EmitKids(v.kids, i, table).outcome == Pass
      invariant After(copyTo, old(copyTo.data), old(copyTo.pos), EmitKids(v.kids, i, table))
    {
      var c := WriteKid(node, copyTo, table, v, chains, S, i, old(copyTo.data), old(copyTo.pos));
      if c.Fail? {
        EmitKidsStops(v.kids, i + 1, |v.kids|, table);
        return c;
      }
      i := i + 1;
    }
    return Pass;
  }

  /** One turn of the loop over the children: Recreate(node[i]) after the children before it. */
  method WriteKid(node: FostrianNode, copyTo: Stream, table: Table, ghost v: Shape, ghost chains: Chains,
                  ghost S: set<FostrianNode>, i: nat, ghost d0: seq<byte>, ghost p0: nat)
    returns (r: Outcome)
    requires copyTo.canSeek && copyTo.canWrite && Describes(node, v, chains, S) && i < |v.kids|
    requires EmitKids(v.kids, i, table).outcome == Pass
    requires After(copyTo, d0, p0, EmitKids(v.kids, i, table))
    modifies copyTo
    decreases v, 0
    ensures r == EmitKids(v.kids, i + 1, table).outcome
    ensures After(copyTo, d0, p0, EmitKids(v.kids, i + 1, table))
  {
    r := Recreate(node.Get(i).value, copyTo, table, v.kids[i], chains, S);
    WroteMore(d0, p0, EmitKids(v.kids, i, table).bytes, Emit(v.kids[i], table).bytes);
  }
}
