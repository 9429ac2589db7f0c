# Fostrian tree codec — a Dafny model

Fostrian is a small C# library that stores a tree of byte payloads in a stream.
A document has two parts:

- a three-byte header: the start byte, the end byte, and the code of a text encoding, which is its index in the host's encoding table;
- a sequence of framed nodes. Each frame is the start byte, the payload, the end byte, and the node's child count as a little-endian 32-bit integer. The frame is followed by the frames of the node's children.

The library reads documents with `Parse` and `ParseRecursive`, and writes them with `Recreate`.
Its in-memory tree is `FostrianNode`:

- a payload (possibly null);
- an ordered child list;
- a parent link;
- a root flag.

Only a root keeps the header fields. All other nodes read the header fields through their parent chain.

This project models that core and proves what it does:

- `Bytes`: the little-endian 32-bit integer conversions and 32-bit wrap-around.
- `Streams`: an in-memory stream. It is a class with the bytes, the cursor and the CanSeek/CanRead/CanWrite flags.
- `MarkerScan`: `Search`, the forward scan for a byte that restores the cursor.
- `Encodings`: `GetFostrianCode` and `GetFostrianEncoding` over a fixed encoding table.
- `ChildList`: the list operations the node mutators perform, as functions on sequences. These include `List.Remove`, which removes the first occurrence, and the `RemoveAll` and `RemoveRange` loops over a shrinking list.
- `Nodes`: `FostrianNode` as a class:
  - its constructors;
  - the property getters that walk the parent chain, and the setters;
  - the indexer;
  - `Size`;
  - the in-place mutators.
- `Decoder`:
  - pure functions saying what `Parse` and `ParseRecursive` compute from the stream's bytes;
  - the two loops as methods, proved to build exactly those trees.
- `Encoder`:
  - pure functions for the bytes `Recreate` writes (`Emit`);
  - `Recreate` as a recursive method, proved to write exactly those bytes.
- `EncoderLaws`:
  - when a whole tree can be written;
  - how many bytes that takes;
  - where each header and frame field lands.
- `Findings`: the four places where the code does not do what it evidently means to do (see "## Findings"):
  - each as-written behaviour on a concrete input;
  - the intended behaviour, with its property proved.

The model keeps the code's behaviour, including where that behaviour is evidently unintended:

- `Parse` as written refuses every stream whose cursor is at or before its end (`Decoder.ParseNeverSucceeds`).
- The frame reader is off by one against the writer.
- `ParseRecursive` looks for the byte 3 rather than the document's end byte.
- `RemoveAll`, `RemoveRange` and `Clear` skip elements.

Exceptions become `Outcome` or `Result` failures, with one error kind per exception the code throws.
A null stream or node passed to `Parse`, `ParseRecursive` or `Recreate` is a nullable reference, and a null payload or encoding is an `Option` value. The node mutators take non-null nodes, sequences and predicates (see "## Left out").

## Model

| member | source | states |
|---|---|---|
| Bytes.Wrap32 | Fostrian.cs:702 | the 32-bit sum `index + count` agrees with the mathematical sum modulo 2^32 and equals it when that sum is in range |
| Bytes.Int32FromLE | Fostrian.cs:97 | `BitConverter.ToInt32` of four bytes is a signed 32-bit value, negative exactly when the top bit of the last byte is set |
| Bytes.Int32ToLE | Fostrian.cs:228 | `BitConverter.GetBytes(int)` gives four bytes whose unsigned value is the integer modulo 2^32 |
| Bytes.Int32RoundTrip | Fostrian.cs:228 | reading back the four bytes written for a 32-bit integer gives that integer |
| Bytes.LERoundTrip | Fostrian.cs:97 | writing the integer read from any four bytes gives those bytes back |
| Streams.Overwrite | Fostrian.cs:221-229 | the stream's bytes after a write at p are as long as the old contents or reach p + the byte count, whichever is more |
| Streams.OverwriteBytes | Fostrian.cs:221-229 | a write puts its bytes at [p, p + count) and leaves every other byte as it was, with zeros in a gap past the old end |
| Streams.Stream.Seek | Fostrian.cs:38 | setting Position on a seekable stream moves the cursor there |
| Streams.Stream.ReadByte | Fostrian.cs:39 | fails on an unreadable stream and past the end; otherwise returns the byte at the cursor and advances it by one |
| Streams.Stream.Read | Fostrian.cs:94 | fails on an unreadable stream and when fewer than count bytes remain; otherwise returns the next count bytes and advances the cursor by count |
| Streams.Stream.Write | Fostrian.cs:226 | the bytes are written at the cursor over what was there, and the stream grows when needed; the cursor moves past them |
| MarkerScan.FirstIndexFrom | Fostrian.cs:36-47 | the scan's result is -1 or an index at or after the start that holds the byte |
| MarkerScan.FirstIndexFromIsFirst | Fostrian.cs:36-47 | no index between the start and the result holds the byte, and -1 means no index from the start to the end holds it |
| MarkerScan.Search | Fostrian.cs:28-48 | throws when the stream cannot seek, then when it cannot read; otherwise returns the first index holding the byte, from startPos or (for a negative startPos) from the cursor, or -1; the cursor is restored in every case |
| Encodings.LeastIndex | Fostrian.cs:182-188 | the least index holding the encoding, or -1 exactly when none does |
| Encodings.GetFostrianCode | Fostrian.cs:180-190 | succeeds exactly when the encoding is in the table; the code is the first such index truncated to a byte, which indexes the encoding back when the table has at most 256 entries; otherwise NotImplementedException |
| Encodings.GetFostrianEncoding | Fostrian.cs:197-200 | `encodings[value]`: the table entry at the code when the code is within the table, and an index error otherwise |
| Encodings.CodeThenEncoding | Fostrian.cs:180-200 | for a table of at most 256 entries, GetFostrianEncoding(GetFostrianCode(e)) == e for every e in the table |
| Encodings.EncodingThenCode | Fostrian.cs:180-200 | in a table without repeats, GetFostrianCode(GetFostrianEncoding(b)) == b for every code b within the table |
| ChildList.IndexOf | Fostrian.cs:662 | the first index holding x, or -1 exactly when x is not in the list |
| ChildList.RemoveFirst | Fostrian.cs:662 | `List.Remove` shortens the list by one exactly when the element is in it |
| ChildList.RemoveFirstAt | Fostrian.cs:662 | `List.Remove` deletes the element at its first index and keeps the rest in order, and changes nothing when the element is absent |
| ChildList.RemoveFirstMultiset | Fostrian.cs:662 | `List.Remove` takes exactly one copy of the element out of the list |
| ChildList.RemoveAllFrom | Fostrian.cs:684-691 | the list left and the nodes removed by the RemoveAll loop together are the original list, every removed node matches, and nothing new appears |
| ChildList.RemoveAllKeepsUnmatched | Fostrian.cs:684-691 | every copy of a non-matching node survives the RemoveAll loop |
| ChildList.RemoveRangeFrom | Fostrian.cs:702-705 | when the RemoveRange loop runs to its end it has removed exactly stop - index nodes |
| ChildList.RemoveRangeConserves | Fostrian.cs:702-705 | the nodes left and the nodes removed by the RemoveRange loop together are the original list |
| ChildList.RemoveRangeCompletes | Fostrian.cs:702-705 | the RemoveRange loop runs without an index error exactly when the range is empty, or when the index is non-negative and 2·stop − index − 2 is below the length |
| ChildList.RemoveRangeSkips | Fostrian.cs:702-705 | in a list without repeats, the k-th node the RemoveRange loop removes is the one at index + 2k of the original list |
| ChildList.RemoveFirstAtFirst | Fostrian.cs:672-674 | when no earlier child is the same node, RemoveAt's `Values.Remove(Values[i])` removes exactly index i |
| Nodes.GenerateRootNode | Fostrian.cs:19 | a fresh node with IsRoot set, no data, no parent, no children and default header fields |
| Nodes.FostrianNode.constructor | Fostrian.cs:261-263 | a node that is not a root, with no data, no parent, no children and default header fields |
| Nodes.FostrianNode.WithChildren | Fostrian.cs:269-275 | the child list is the given nodes in order, and their Parent links are not touched |
| Nodes.FostrianNode.WithData | Fostrian.cs:281-284 | a node holding the given (possibly null) payload and nothing else |
| Nodes.FostrianNode.Size | Fostrian.cs:1088 | the number of children: the indexer accepts exactly the indexes below it |
| Nodes.FostrianNode.Get | Fostrian.cs:385 | the indexer returns the child at an index within the list, and throws an index error for any other index |
| Nodes.FostrianNode.Encoding | Fostrian.cs:395-410 | the encoding of the first root on the parent chain; NullReferenceException when a null Parent comes first |
| Nodes.FostrianNode.StartByte | Fostrian.cs:428-443 | the start byte of the first root on the parent chain; NullReferenceException when a null Parent comes first |
| Nodes.FostrianNode.EndByte | Fostrian.cs:461-476 | the end byte of the first root on the parent chain; NullReferenceException when a null Parent comes first |
| Nodes.FostrianNode.SetEncoding | Fostrian.cs:411-421 | a root's encoding becomes the value and its getter returns it; on a non-root node nothing changes |
| Nodes.FostrianNode.SetStartByte | Fostrian.cs:444-454 | a root's start byte becomes the value and its getter returns it; on a non-root node nothing changes |
| Nodes.FostrianNode.SetEndByte | Fostrian.cs:477-487 | a root's end byte becomes the value and its getter returns it; on a non-root node nothing changes |
| Nodes.FostrianNode.Add | Fostrian.cs:571-572 | the node is appended after the unchanged children, stops being a root and gets this node as its Parent |
| Nodes.FostrianNode.AddBytes | Fostrian.cs:565 | a fresh non-root child holding the payload, with this node as its Parent, is appended after the unchanged children |
| Nodes.FostrianNode.AddRange | Fostrian.cs:841-848 | one fresh, distinct, non-root child per payload, in order and parented here, is appended after the unchanged children |
| Nodes.FostrianNode.Insert | Fostrian.cs:718-723 | the Parent is set first, always; then, for an index within 0..Size, the node goes in at that index with the later children shifted right; any other index throws and leaves the list alone |
| Nodes.FostrianNode.InsertBytes | Fostrian.cs:796 | a fresh non-root child holding the payload is inserted at an index within 0..Size; any other index throws and leaves the list alone |
| Nodes.FostrianNode.InsertRange | Fostrian.cs:803-813 | the nodes go in as a block at the index, each parented here; at a bad index the first node's Parent is set, then the insert throws, leaving the list and the other nodes alone |
| Nodes.FostrianNode.Remove | Fostrian.cs:659-664 | the node's Parent is cleared, and only its first occurrence is deleted, with the rest kept in order |
| Nodes.FostrianNode.RemoveAt | Fostrian.cs:670-676 | an index outside the list throws and changes nothing; otherwise the node at the index loses its Parent and its first occurrence is removed |
| Nodes.FostrianNode.RemoveAll | Fostrian.cs:682-693 | the child list becomes what the RemoveAll loop leaves; the nodes it removed lose their Parent, and every other node keeps its Parent |
| Nodes.FostrianNode.RemoveRange | Fostrian.cs:700-707 | the child list becomes what the RemoveRange loop leaves, with the bound computed in 32 bits; the call succeeds exactly when that loop completes, and otherwise throws an index error; the removed nodes lose their Parent, and the others keep theirs |
| Nodes.FostrianNode.Clear | Fostrian.cs:853-857 | succeeds exactly when there was at most one child, and then leaves none; otherwise throws an index error; each child RemoveRange took out loses its parent and every other child keeps its own, so on success every former child has no parent |
| Decoder.FrameAt | Fostrian.cs:85-98 | one frame at p: it fails on a stream that cannot seek or read, on a missing marker or one at p, or when the count runs past the end; on success the payload is the bytes from p to two before the marker, the count is read from the byte before the marker, and the cursor ends three past it |
| Decoder.FrameAtFirstMarker | Fostrian.cs:91-98 | the frame ends at the first marker from p; a negative payload length occurs exactly when the marker is missing or sits at p; a read past the end occurs exactly when the first marker lies within two bytes of the end |
| Decoder.ChildAt | Fostrian.cs:130-147 | a child read at p ends at least four bytes later and within the stream |
| Decoder.KidsOf | Fostrian.cs:100-103 | a frame with a positive count gets exactly count children; any other count gets none, and the cursor stays after the frame |
| Decoder.Siblings | Fostrian.cs:128-149 | the ParseRecursive loop yields exactly n children and never moves the cursor back |
| Decoder.TopLevel | Fostrian.cs:83-104 | the Parse loop succeeds only by landing exactly on the stop |
| Decoder.ParseRecursiveSpec | Fostrian.cs:122-150 | a count that is not positive is refused with ArgumentOutOfRangeException; a successful read yields exactly count children and ends within the stream |
| Decoder.ParseSpec | Fostrian.cs:59-107 | a stream that cannot seek fails on Length or Position before the guard; on a seekable stream a stop within the stream is refused with PrematureEnd; a result can only be ParseBody's at the computed stop |
| Decoder.ParseBody | Fostrian.cs:69-104 | fails on an unreadable stream and when fewer than three header bytes remain; a document it reads has the first two header bytes as start and end bytes, the table entry of the third as encoding, and ends exactly at the stop |
| Decoder.StopOf | Fostrian.cs:62 | _Stop is the length for a negative stopPoint; otherwise it is the stopPoint or the cursor, whichever is later |
| Decoder.TopLevelFailsShort | Fostrian.cs:83-89 | from a position within the stream, the Parse loop never reaches a stop that lies beyond the stream's end |
| Decoder.ParseNeverSucceeds | Fostrian.cs:59-107 | Parse as written fails on every stream and stop point of the model: NotSupportedException (CannotSeek) when the stream cannot seek; PrematureEnd for the default -1, and for any stop within the stream when the cursor is at or before the end; and for a cursor past the end with a stop at or before it, the model fails at the header read (see "## Left out") |
| Decoder.NestedCountHoldsMarker | Fostrian.cs:127-142 | below the top level the count's second byte is the marker 3, so every positive nested count is at least 768 |
| Decoder.ReadFrame | Fostrian.cs:91-97 | reads exactly FrameAt's frame from the cursor and leaves the cursor after it |
| Decoder.Attach | Fostrian.cs:135-144 | a fresh non-root node holding the payload and parented by rootnode is appended to its children |
| Decoder.ReadChild | Fostrian.cs:130-148 | one loop iteration appends one node that realizes ChildAt's tree, or fails with ChildAt's error |
| Decoder.ReadKids | Fostrian.cs:100-103 | a node gets children realizing KidsOf's trees, recursing only for a positive count |
| Decoder.SiblingsAdvance | Fostrian.cs:128-149 | one iteration of the ParseRecursive loop: it fails at or past the stop, fails with the child's error, or continues with one child fewer to read |
| Decoder.ParseRecursive | Fostrian.cs:122-150 | throws on a null node or stream, and on a count that is not positive; otherwise appends exactly count children, in stream order, realizing the trees the loop decodes, each a non-root child of rootnode |
| Decoder.ReadSibling | Fostrian.cs:130-148 | one iteration of the ParseRecursive loop advances the cursor and the decoded trees together |
| Decoder.ReadChildren | Fostrian.cs:128-149 | the ParseRecursive loop builds children realizing Siblings' trees, or fails with its error |
| Decoder.TopLevelAdvance | Fostrian.cs:83-104 | one iteration of the Parse loop: it fails past the stop, fails with the child's error, or continues after the child |
| Decoder.ReadTopChild | Fostrian.cs:85-103 | one iteration of the Parse loop advances the cursor and the decoded trees together |
| Decoder.ReadTopLevel | Fostrian.cs:83-104 | the Parse loop builds root children realizing TopLevel's trees, or fails with its error |
| Decoder.ReadHeader | Fostrian.cs:69-71 | the three header bytes at the cursor, or a read failure |
| Decoder.MakeRoot | Fostrian.cs:74-81 | a fresh parentless root with no data and no children, holding the header's encoding, start byte and end byte |
| Decoder.ReadDocument | Fostrian.cs:69-105 | after the guard, Parse returns a root holding the header fields, with children realizing the decoded trees, exactly when the pure decoding succeeds; otherwise it fails with its error |
| Decoder.Parse | Fostrian.cs:59-107 | throws on a null stream and, reading Length, on one that cannot seek; otherwise it succeeds exactly when ParseSpec does, with the same error or the root it describes |
| Encoder.EmitKidsStops | Fostrian.cs:230-233 | once a child's Recreate has thrown, later children write nothing |
| Encoder.Recreate | Fostrian.cs:211-234 | a null node or stream, or a stream that cannot seek or cannot write, is refused before any byte is written; otherwise the stream afterwards holds exactly Emit's bytes written at the cursor, the cursor moves past them, and the outcome is Emit's |
| Encoder.RecreateNode | Fostrian.cs:219-233 | writes a node's frame and then its children, exactly as Emit says |
| Encoder.WriteFrame | Fostrian.cs:219-229 | writes the header of a root and then the frame, exactly as Frame says |
| Encoder.WriteHead | Fostrian.cs:219-223 | a root writes its start byte, its end byte and the code of its encoding, and stops after two bytes when the encoding has no code; other nodes write nothing |
| Encoder.WriteBody | Fostrian.cs:225-229 | writes StartByte, Data, EndByte and the little-endian Size, and stops at a null parent or null data after what was already written |
| Encoder.WriteKids | Fostrian.cs:230-233 | writes the children in index order, each as Recreate would, and stops at the first failure |
| Encoder.WriteKid | Fostrian.cs:232 | one iteration of the children loop extends the bytes written by one child's Recreate |
| EncoderLaws.HeadBytes | Fostrian.cs:219-223 | the header part of Recreate (`Encoder.Head`): nothing for a non-root; for a root, its start and end bytes, then the code of its encoding, or NotImplementedException after two bytes when the encoding is not in the table |
| EncoderLaws.BodyBytes | Fostrian.cs:225-229 | the frame part of Recreate (`Encoder.Body`): nothing before a null parent on the chain, the start byte alone before null data, and otherwise StartByte, Data, EndByte and four bytes reading back as the child count, Data + 6 bytes in all |
| EncoderLaws.FramePasses | Fostrian.cs:219-229 | a node's header and frame are written whole exactly when its chain ends at a root, it has data, and a root's encoding is in the table; any other failure is one of those three errors |
| EncoderLaws.WriteSucceeds | Fostrian.cs:211-234 | Recreate on an accepted stream completes exactly when every node of the tree is writable, and otherwise throws one of those three errors |
| EncoderLaws.KidsSucceed | Fostrian.cs:230-233 | the children loop completes exactly when each child visited can be written |
| EncoderLaws.WriteVolume | Fostrian.cs:211-234 | a writable tree takes 3 bytes for a root's header plus 6 + the payload length for every node in it |
| EncoderLaws.KidsVolumeIs | Fostrian.cs:230-233 | writable children take the sum of their volumes |
| EncoderLaws.HeaderLayout | Fostrian.cs:219-223 | a root's bytes begin with its start byte and end byte, then a code that GetFostrianEncoding maps back to its encoding when the table has at most 256 entries |
| EncoderLaws.FrameLayout | Fostrian.cs:225-229 | after a root's header: the start byte, the data, the end byte, four bytes that read back as the child count, then exactly the children's bytes |
| Findings.RemoveAllSkipsNeighbour | Fostrian.cs:684-691 | removing every child from [1, 2] with RemoveAll as written leaves [2] |
| Findings.Unmatched | Fostrian.cs:682-693 | the intended RemoveAll never lengthens the list |
| Findings.UnmatchedKeeps | Fostrian.cs:682-693 | the intended RemoveAll keeps exactly the non-matching elements, each with all its copies, and no copy of a matching one |
| Findings.UnmatchedInOrder | Fostrian.cs:682-693 | the intended RemoveAll on a list split in two is the concatenation of its results on the parts, so the survivors keep their order |
| Findings.UnmatchedOne | Fostrian.cs:682-693 | on a single element the intended RemoveAll keeps it exactly when it does not match |
| Findings.IntendedRemoveAllEmpties | Fostrian.cs:682-693 | the intended RemoveAll leaves nothing of [1, 2] for a predicate matching all |
| Findings.RemoveRangeKeepsMiddle | Fostrian.cs:702-705 | RemoveRange(0, 3) as written on three children removes the first and the third, keeps the second, and throws |
| Findings.RangeRemoved | Fostrian.cs:700-707 | the intended RemoveRange removes exactly the count elements from index, keeping the others in order, and refuses a range outside the list |
| Findings.IntendedClearEmpties | Fostrian.cs:853-857 | the intended Clear leaves no children, whatever their number |
| Findings.IntendedParse | Fostrian.cs:59-107 | the intended Parse refuses a stream that cannot seek and a stop beyond the stream's end; a document it reads has the header bytes at the cursor as start byte, end byte and encoding code, and ends at the stop; a stream holding just a header up to the stop yields that root with no children. This reading negates the code's comparison with the length, as the exception's message suggests, rather than refusing a stop at or before the cursor up front; that stop is still refused, by the loop's check |
| Findings.IntendedParseReadsHeader | Fostrian.cs:63-81 | a stream holding only a valid header: Parse as written refuses it, while the intended guard yields the root with the header's fields and no children |
| Findings.IntendedParseRefusesStopAtCursor | Fostrian.cs:62-89 | under the corrected guard, a stop point at or before the cursor passes the guard and, once the header is read, is refused with "End of stream reached prematurely" by the loop's own check |
| Findings.FrameMisreadsLeaf | Fostrian.cs:93-97 | the leaf Recreate writes as [2, 65, 3, 0, 0, 0, 0] is read back with payload [2] and child count 833 |
| Findings.IntendedFrameAt | Fostrian.cs:91-97 | the intended frame reader takes the data from after the start byte up to the end byte and the count from the four bytes after it |
| Findings.IntendedFrameReadsBody | Fostrian.cs:91-97 | the intended frame reader recovers the data, the child count and the end of every frame Recreate writes, provided the data has no end byte and the start and end bytes differ |

## Left out

- `Parse(string)` (Fostrian.cs:114-120) and `Recreate(node, string)` (Fostrian.cs:241-247) are not modelled. They are file-system I/O around the stream codec.
- `System.Text.Encoding.GetEncodings()` (Fostrian.cs:173) is a host call. The table is a parameter: a fixed sequence of encoding ids whose contents are not modelled. Encodings are compared by value, whereas the code compares `Encoding` objects by reference.
- The following are not modelled:
  - the typed constructors and the typed Add/Insert overloads;
  - the string-taking constructor and overloads;
  - `DataAsString` and the `DataAs*` conversions.

  These are `BitConverter` and text-encoding conversions, some of them floating point.
- The `List<T>` wrappers (`Find`, `FindAll`, `Exists`, `IndexOf`, `GetRange` and the like) are not modelled. They add nothing to the format.
- Streams have no short reads. A read past the end is a failure, modelled as ReadPastEnd. The code instead gets -1 from `ReadByte` and casts it to the byte 255, or gets a short `Read`.
- Exceptions are modelled as error values. The model does not cover:
  - the exception classes and their messages;
  - what a caller could observe of a partly changed tree after catching one.
- The list mutators return `this` for chaining. The model's methods return nothing, or only the outcome.
- Concurrency is not modelled, and neither are cycles through `Parent`. The getters and `Recreate` take the parent chains and the subtree as ghost arguments: a finite, cycle-free unfolding, as the code assumes.
- The stop point is an unbounded integer rather than a `long`, and stream positions are natural numbers.
- The decoder creates each node after its frame is read. The code creates it before the search. Nothing observable depends on that order.
- The helper methods of the decoder and the encoder are factorings of one source body each, under the lines cited in the table. These helpers are ReadFrame, ReadChild, ReadKids, ReadSibling, ReadChildren, ReadTopChild, ReadTopLevel, ReadHeader, MakeRoot, Attach, RecreateNode, WriteFrame, WriteHead, WriteBody, WriteKids and WriteKid.
- InsertRange enumerates the given nodes as a sequence fixed at the call. The model does not cover the code's behaviour when that enumeration is the child list being changed.
- Nodes.FostrianNode.Add, Nodes.FostrianNode.Insert, Nodes.FostrianNode.Remove, Nodes.FostrianNode.AddRange, Nodes.FostrianNode.InsertRange, Nodes.FostrianNode.RemoveAll and Nodes.FostrianNode.WithChildren take non-null arguments. This leaves out what the code does with null ones: `Add(null)`, `Insert(i, null)` and `Remove(null)` throw NullReferenceException on `node.IsRoot` or `node.Parent` (Fostrian.cs:572, 720, 661). A null sequence or predicate throws as well (Fostrian.cs:687, 806, 843), and `new FostrianNode(subnodes)` stores null elements as children (Fostrian.cs:273), which `Recreate` later refuses with ArgumentNullException (Fostrian.cs:213, reached from 232). Children are non-null throughout the model.
- Nodes.FostrianNode.WithData, Nodes.FostrianNode.AddBytes, Nodes.FostrianNode.InsertBytes and Nodes.FostrianNode.AddRange store the payload as a value. The code stores the caller's `byte[]` by reference (Fostrian.cs:283, 565, 796, 845), so a later change to that array through another reference changes the node's Data. Aliasing of payload arrays is not modelled.
- The pure descriptions of Recreate's writes (`Encoder.Frame`, `Encoder.Emit`, `Encoder.EmitKids`) carry no contracts of their own. What they mean is stated by the lemmas in `EncoderLaws` (FramePasses, WriteSucceeds, KidsSucceed, WriteVolume, KidsVolumeIs, HeaderLayout, FrameLayout), by `Encoder.EmitKidsStops`, and by `Encoder.Recreate`, which writes exactly `Emit`'s bytes.
- Nodes.FostrianNode.Clear: it requires fewer than 2^31 children, which a `List<T>` count always satisfies.
- Decoder.ParseNeverSucceeds: its claim about the code holds for a cursor at or before the stream's end. A seekable stream may have its cursor past the end, and then a stop point between 0 and the cursor passes the guard at Fostrian.cs:63. The code's three `ReadByte` calls return -1 and give the bytes 255, and with a table of at least 256 encodings the code returns a root with no children. The model gives ReadPastEnd there, because its streams have no short reads.

## Findings

| source | as written | input that shows it | evidently intended | confidence | as-written member | corrected member |
|---|---|---|---|---|---|---|
| Fostrian.cs:682-693 | RemoveAll advances its index after removing a child, so the child that slides into that place is never matched against the predicate | a predicate matching everything, on children [1, 2]: [2] is left | every matching child removed | not executed | Findings.RemoveAllSkipsNeighbour | Findings.Unmatched |
| Fostrian.cs:700-707 | RemoveRange calls RemoveAt(i) for a rising i on a list that shrinks, so it removes every other child and then throws; Clear (Fostrian.cs:853-857) inherits this | RemoveRange(0, 3), or Clear, on children [1, 2, 3]: 1 and 3 are removed, 2 is left, and an index error is thrown | the count children from index removed, and Clear leaving no children | not executed | Findings.RemoveRangeKeepsMiddle | Findings.RangeRemoved |
| Fostrian.cs:63-66 | the guard throws "End of stream reached prematurely" whenever the stop is at or before the stream's end, and from a cursor at or before the end no stop beyond it can be reached, so Parse never returns | any stream, with the default stop point -1; for example the three header bytes alone | throwing only for a stop beyond the end, the negation of the comparison with the length that the code makes, as the message says; a stop at or before the cursor is then still refused by the loop's check at Fostrian.cs:83-89 | not executed | Decoder.ParseNeverSucceeds | Findings.IntendedParse |
| Fostrian.cs:93-97 | the payload is read from the start byte's position and the count from the byte before the end marker, one byte off against what Recreate writes (Fostrian.cs:225-229) | the leaf with start byte 2, data [65] and end byte 3, written as [2, 65, 3, 0, 0, 0, 0]: it is read as payload [2] and count 833 | data read after the start byte, count read after the end byte | not executed | Findings.FrameMisreadsLeaf | Findings.IntendedFrameAt |
