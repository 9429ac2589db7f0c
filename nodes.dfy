/**
 * The Fostrian tree node. A node holds an optional payload, an ordered child list, a
 * parent link and a root flag; a root also carries the header fields (encoding, start
 * byte, end byte) that every node below it reads through its parent chain.
 */
module Nodes {
  import opened Bytes
  import opened Outcomes
  import opened Encodings
  import ChildList

  /**
   * A parent chain as the property getters walk it: it starts at the node asked, every
   * link but the last is a non-root node whose Parent is the next link, and the last link
   * is a root or has no parent.
   */
  ghost predicate IsAncestry(chain: seq<FostrianNode>)
    reads chain
  {
    && |chain| > 0
    && (forall i :: 0 <= i < |chain| - 1 ==> !chain[i].isRoot && chain[i].parent == chain[i + 1])
    && (chain[|chain| - 1].isRoot || chain[|chain| - 1].parent == null)
  }

  /** The root a chain ends at, or null when it ends at a missing parent. */
  ghost function RootOf(chain: seq<FostrianNode>): FostrianNode?
    requires IsAncestry(chain)
    reads chain
  {
    var last := chain[|chain| - 1];
    if last.isRoot then last else null
  }

  /** The root-node factory: a fresh node whose IsRoot is set and all else is empty. */
  method GenerateRootNode() returns (r: FostrianNode)
    ensures fresh(r)
    ensures r.isRoot && r.data == None && r.parent == null && r.values == []
    ensures r.encodingField == None && r.startByteField == 0 && r.endByteField == 0
  {
    r := new FostrianNode();
    r.isRoot := true;
  }

  class FostrianNode {
    /** Data; the payload array may be null. */
    var data: Option<seq<byte>>
    /** IsRoot */
    var isRoot: bool
    /** Parent */
    var parent: FostrianNode?
    /** Values: the child list. */
    var values: seq<FostrianNode>
    /** The fields behind Encoding, StartByte and EndByte; the setters only change a root's. */
    var encodingField: Option<TextEncoding>
    var startByteField: byte
    var endByteField: byte

    /** A node with no payload, no children and no parent, and not a root. */
    constructor ()
      ensures data == None && !isRoot && parent == null && values == []
      ensures encodingField == None && startByteField == 0 && endByteField == 0
    {
      data := None;
      isRoot := false;
      parent := null;
      values := [];
      encodingField := None;
      startByteField := 0;
      endByteField := 0;
    }

    /** FostrianNode(byte[] data): a node holding the given payload (possibly null). */
    constructor WithData(d: Option<seq<byte>>)
      ensures data == d && !isRoot && parent == null && values == []
      ensures encodingField == None && startByteField == 0 && endByteField == 0
    {
      data := d;
      isRoot := false;
      parent := null;
      values := [];
      encodingField := None;
      startByteField := 0;
      endByteField := 0;
    }

    /**
     * FostrianNode(subnodes): a node whose child list is the given nodes, added one by one
     * in order. The children's Parent links are left as they were.
     */
    constructor WithChildren(subnodes: seq<FostrianNode>)
      ensures values == subnodes
      ensures data == None && !isRoot && parent == null
      ensures encodingField == None && startByteField == 0 && endByteField == 0
    {
      data := None;
      isRoot := false;
      parent := null;
      values := [];
      encodingField := None;
      startByteField := 0;
      endByteField := 0;
      new;
      var i := 0;
      while i < |subnodes|
        invariant 0 <= i <= |subnodes|
        invariant values == subnodes[..i]
        invariant data == None && !isRoot && parent == null
        invariant encodingField == None && startByteField == 0 && endByteField == 0
      {
        values := values + [subnodes[i]];
        i := i + 1;
      }
    }

    /** Size: the number of children, which is the number of indexes the indexer accepts. */
    function Size(): (n: nat)
      reads this`values
      ensures forall i :: Get(i).Success? <==> 0 <= i < n
    {
      |values|
    }

    /** The indexer this[index]: the child at index, or an index error outside the list. */
    function Get(index: int): (r: Result<FostrianNode>)
      reads this`values
      ensures r.Success? <==> 0 <= index < |values|
      ensures r.Success? ==> r.value == values[index] && r.value in values
      ensures r.Failure? ==> r.error == IndexOutOfRange
    {
      if 0 <= index < |values| then Success(values[index]) else Failure(IndexOutOfRange)
    }

    /**
     * The StartByte getter: a root's own start byte; a non-root asks its parent; a missing
     * parent is a NullReferenceException. Hence it is the start byte of the root the chain
     * ends at.
     */
    function StartByte(ghost chain: seq<FostrianNode>): (r: Result<byte>)
      requires IsAncestry(chain) && chain[0] == this
      reads chain
      decreases |chain|
      ensures RootOf(chain) != null ==> r == Success(RootOf(chain).startByteField)
      ensures RootOf(chain) == null ==> r == Failure(NullParent)
    {
      assert |chain| > 1 ==> !chain[0].isRoot && chain[0].parent == chain[1];
      if isRoot then Success(startByteField)
      else if parent == null then Failure(NullParent)
      else parent.StartByte(chain[1..])
    }

    /** The EndByte getter: the end byte of the root the chain ends at. */
    function EndByte(ghost chain: seq<FostrianNode>): (r: Result<byte>)
      requires IsAncestry(chain) && chain[0] == this
      reads chain
      decreases |chain|
      ensures RootOf(chain) != null ==> r == Success(RootOf(chain).endByteField)
      ensures RootOf(chain) == null ==> r == Failure(NullParent)
    {
      assert |chain| > 1 ==> !chain[0].isRoot && chain[0].parent == chain[1];
      if isRoot then Success(endByteField)
      else if parent == null then Failure(NullParent)
      else parent.EndByte(chain[1..])
    }

    /** The Encoding getter: the (possibly null) encoding of the root the chain ends at. */
    function Encoding(ghost chain: seq<FostrianNode>): (r: Result<Option<TextEncoding>>)
      requires IsAncestry(chain) && chain[0] == this
      reads chain
      decreases |chain|
      ensures RootOf(chain) != null ==> r == Success(RootOf(chain).encodingField)
      ensures RootOf(chain) == null ==> r == Failure(NullParent)
    {
      assert |chain| > 1 ==> !chain[0].isRoot && chain[0].parent == chain[1];
      if isRoot then Success(encodingField)
      else if parent == null then Failure(NullParent)
      else parent.Encoding(chain[1..])
    }

    /** The StartByte setter: stores the byte on a root and does nothing on any other node. */
    method SetStartByte(value: byte)
      modifies this`startByteField
      ensures startByteField == if isRoot then value else old(startByteField)
      ensures isRoot ==> StartByte([this]) == Success(value)
    {
      if isRoot {
        startByteField := value;
      }
    }

    /** The EndByte setter: stores the byte on a root and does nothing on any other node. */
    method SetEndByte(value: byte)
      modifies this`endByteField
      ensures endByteField == if isRoot then value else old(endByteField)
      ensures isRoot ==> EndByte([this]) == Success(value)
    {
      if isRoot {
        endByteField := value;
      }
    }

    /** The Encoding setter: stores the encoding on a root and does nothing on any other node. */
    method SetEncoding(value: Option<TextEncoding>)
      modifies this`encodingField
      ensures encodingField == if isRoot then value else old(encodingField)
      ensures isRoot ==> Encoding([this]) == Success(value)
    {
      if isRoot {
        encodingField := value;
      }
    }

    /** Add(node): the node stops being a root, gets this node as parent and is appended. */
    method Add(node: FostrianNode)
      modifies this`values, node`isRoot, node`parent
      ensures values == old(values) + [node]
      ensures !node.isRoot && node.parent == this
    {
      node.isRoot := false;
      node.parent := this;
      values := values + [node];
    }

    /** Add(byte[]): appends a fresh non-root child of this node holding the payload. */
    method AddBytes(input: Option<seq<byte>>)
      modifies this`values
      ensures |values| == |old(values)| + 1 && values[..|old(values)|] == old(values)
      ensures var n := values[|old(values)|];
        && fresh(n) && n.data == input && !n.isRoot && n.parent == this && n.values == []
    {
      var n := new FostrianNode.WithData(input);
      n.parent := this;
      Add(n);
    }

    /** AddRange: one fresh non-root child of this node per payload, appended in order. */
    method AddRange(inputs: seq<Option<seq<byte>>>)
      modifies this`values
      ensures |values| == |old(values)| + |inputs| && values[..|old(values)|] == old(values)
      ensures forall k :: |old(values)| <= k < |values| ==>
        && fresh(values[k]) && values[k].data == inputs[k - |old(values)|] && !values[k].isRoot
        && values[k].parent == this && values[k].values == []
      ensures ChildList.Distinct(values[|old(values)|..])
    {
      var i := 0;
      while i < |inputs|
        invariant 0 <= i <= |inputs|
        invariant |values| == |old(values)| + i && values[..|old(values)|] == old(values)
        invariant forall k :: |old(values)| <= k < |values| ==>
          && fresh(values[k]) && values[k].data == inputs[k - |old(values)|] && !values[k].isRoot
          && values[k].parent == this && values[k].values == []
        invariant ChildList.Distinct(values[|old(values)|..])
      {
        var n := new FostrianNode.WithData(inputs[i]);
        n.parent := this;
        values := values + [n];
        i := i + 1;
      }
    }

    /**
     * Insert(index, node): the node gets this node as parent (before the index is checked,
     * and keeping its IsRoot flag), then goes in at index, shifting later children right;
     * an index outside 0..Size fails and leaves the list alone.
     */
    method Insert(index: int, node: FostrianNode) returns (r: Outcome)
      modifies this`values, node`parent
      ensures node.parent == this
      ensures 0 <= index <= |old(values)| ==>
        r == Pass && values == old(values)[..index] + [node] + old(values)[index..]
      ensures !(0 <= index <= |old(values)|) ==> r == Fail(IndexOutOfRange) && values == old(values)
    {
      node.parent := this;
      if !(0 <= index <= |values|) {
        return Fail(IndexOutOfRange);
      }
      values := values[..index] + [node] + values[index..];
      return Pass;
    }

    /** Insert(index, byte[]): inserts a fresh non-root child of this node holding the payload. */
    method InsertBytes(index: int, input: Option<seq<byte>>) returns (r: Outcome)
      modifies this`values
      ensures 0 <= index <= |old(values)| ==>
        && r == Pass && |values| == |old(values)| + 1
        && values == old(values)[..index] + [values[index]] + old(values)[index..]
        && fresh(values[index]) && values[index].data == input && !values[index].isRoot
        && values[index].parent == this && values[index].values == []
      ensures !(0 <= index <= |old(values)|) ==> r == Fail(IndexOutOfRange) && values == old(values)
    {
      var n := new FostrianNode.WithData(input);
      n.parent := this;
      r := Insert(index, n);
    }

    /**
     * InsertRange(index, nodes): each node in turn gets this node as parent and goes in at
     * index + (its position in nodes). Only the first insertion can find the index out of
     * range; it then fails after having set the first node's parent.
     */
    method InsertRange(index: int, nodes: seq<FostrianNode>) returns (r: Outcome)
      modifies this`values, (set n | n in nodes)`parent
      ensures nodes == [] ==> r == Pass && values == old(values)
      ensures nodes != [] && 0 <= index <= |old(values)| ==>
        && r == Pass && values == old(values)[..index] + nodes + old(values)[index..]
        && forall n :: n in nodes ==> n.parent == this
      ensures nodes != [] && !(0 <= index <= |old(values)|) ==>
        && r == Fail(IndexOutOfRange) && values == old(values) && nodes[0].parent == this
        && forall n :: n in nodes && n != nodes[0] ==> n.parent == old(n.parent)
    {
      var i := 0;
      while i < |nodes|
        invariant 0 <= i <= |nodes|
        invariant i > 0 ==> 0 <= index <= |old(values)|
        invariant values == if i == 0 then old(values) else old(values)[..index] + nodes[..i] + old(values)[index..]
        invariant forall n :: n in nodes[..i] ==> n.parent == this
        invariant forall n :: n in nodes && n !in nodes[..i] ==> n.parent == old(n.parent)
      {
        var node := nodes[i];
        r := Insert(index + i, node);
        if r.Fail? {
          return;
        }
        assert nodes[..i + 1] == nodes[..i] + [node];
        i := i + 1;
      }
      assert nodes[..i] == nodes;
      return Pass;
    }

    /** Remove(node): clears the node's parent, then drops its first occurrence from the list. */
    method Remove(node: FostrianNode)
      modifies this`values, node`parent
      ensures node.parent == null
      ensures values == ChildList.RemoveFirst(old(values), node)
    {
      node.parent := null;
      values := ChildList.RemoveFirst(values, node);
    }

    /**
     * RemoveAt(index): fetches the child at index (an index error outside the list), clears
     * its parent and removes its first occurrence, which is an earlier index when the same
     * node sits in the list twice.
     */
    method RemoveAt(index: int) returns (r: Outcome)
      modifies this`values, (if 0 <= index < |values| then {values[index]} else {})`parent
      ensures !(0 <= index < |old(values)|) ==> r == Fail(IndexOutOfRange) && values == old(values)
      ensures 0 <= index < |old(values)| ==>
        && r == Pass && old(values)[index].parent == null
        && values == ChildList.RemoveFirst(old(values), old(values)[index])
    {
      var node := Get(index);
      if node.Failure? {
        return Fail(IndexOutOfRange);
      }
      Remove(node.value);
      return Pass;
    }

    /**
     * RemoveAll(match): walks the list by index, re-reading its length each time; a child
     * that matches is removed (its parent cleared) and the index still moves on, so the
     * child that slid into its place is not looked at.
     */
    method RemoveAll(pred: FostrianNode -> bool)
      modifies this`values, (set n | n in values)`parent
      ensures values == ChildList.RemoveAllFrom(old(values), 0, pred).0
      ensures forall n :: n in ChildList.RemoveAllFrom(old(values), 0, pred).1 ==> n.parent == null
      ensures forall n :: n in old(values) && n !in ChildList.RemoveAllFrom(old(values), 0, pred).1 ==>
        n.parent == old(n.parent)
    {
      ghost var final := ChildList.RemoveAllFrom(values, 0, pred);
      ghost var removed: seq<FostrianNode> := [];
      var i := 0;
      while i < |values|
        invariant ChildList.RemoveAllFrom(values, i, pred).0 == final.0
        invariant removed + ChildList.RemoveAllFrom(values, i, pred).1 == final.1
        invariant forall n :: n in values ==> n in old(values)
        invariant forall n :: n in removed ==> n.parent == null
        invariant forall n :: n in old(values) && n !in removed ==> n.parent == old(n.parent)
        decreases |values| - i
      {
        var node := values[i];
        if pred(node) {
          ChildList.RemoveFirstSubset(values, node);
          Remove(node);
          removed := removed + [node];
        }
        i := i + 1;
      }
    }

    /**
     * RemoveRange(index, count): RemoveAt(i) for i from index while i < index + count, the
     * sum taken in 32-bit arithmetic, on the list as it shrinks; the first index error
     * stops the loop and is reported.
     */
    method RemoveRange(index: int32, count: int32) returns (r: Outcome)
      modifies this`values, (set n | n in values)`parent
      ensures var rr := ChildList.RemoveRangeFrom(old(values), index, Wrap32(index + count));
        && values == rr.rest
        && (r == Pass <==> rr.completed)
        && (r.Fail? ==> r.error == IndexOutOfRange)
        && forall n {:trigger n.parent} :: n in old(values) ==>
          n.parent == if n in rr.removed then null else old(n.parent)
    {
      var stop := Wrap32(index + count);
      ghost var final := ChildList.RemoveRangeFrom(values, index, stop);
      ghost var removed: seq<FostrianNode> := [];
      var i: int := index;
      r := Pass;
      while i < stop
        invariant final == ChildList.PrefixedBy(removed, ChildList.RemoveRangeFrom(values, i, stop))
        invariant forall n :: n in values ==> n in old(values)
        invariant forall n {:trigger n.parent} :: n in old(values) ==>
          n.parent == if n in removed then null else old(n.parent)
        invariant r == Pass
        decreases stop - i
      {
        ghost var before := values;
        r := RemoveAt(i);
        if r.Fail? {
          break;
        }
        ghost var x := before[i];
        ChildList.RemoveRangeAdvance(removed, before, i, stop);
        removed := removed + [x];
        i := i + 1;
      }
      ChildList.RemoveRangeStops(values, i, stop);
    }

    /**
     * Clear: RemoveRange(0, Size). Because that loop indexes a shrinking list, it only
     * completes on a list of at most one child.
     */
    method Clear() returns (r: Outcome)
      requires |values| < TwoTo31
      modifies this`values, (set n | n in values)`parent
      ensures r == Pass <==> |old(values)| <= 1
      ensures r == Pass ==> values == []
      ensures r.Fail? ==> r.error == IndexOutOfRange
      ensures values == ChildList.RemoveRangeFrom(old(values), 0, |old(values)|).rest
      ensures forall n {:trigger n.parent} :: n in old(values) ==>
        n.parent == if n in ChildList.RemoveRangeFrom(old(values), 0, |old(values)|).removed then null else old(n.parent)
      ensures r == Pass ==> forall n {:trigger n.parent} :: n in old(values) ==> n.parent == null
    {
      ChildList.RemoveRangeCompletes(values, 0, |values|);
      ChildList.RemoveRangeConserves(values, 0, |values|);
      r := RemoveRange(0, |values| as int32);
      if r == Pass {
        assert |values| == 0 by {
          assert |multiset(values)| + |multiset(ChildList.RemoveRangeFrom(old(values), 0, |old(values)|).removed)|
            == |multiset(old(values))|;
        }
        forall n | n in old(values)
          ensures n in ChildList.RemoveRangeFrom(old(values), 0, |old(values)|).removed
        {
          assert n in multiset(old(values));
        }
      }
    }
  }
}
