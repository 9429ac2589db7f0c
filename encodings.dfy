/**
 * The encoding table: the byte code of a text encoding is its index in a fixed table of
 * encodings (the host's list of known encodings, taken once), truncated to a byte.
 */
module Encodings {
  import opened Bytes
  import opened Outcomes

  /** A text encoding, identified by its code page. */
  datatype TextEncoding = TextEncoding(codePage: int)

  type Table = seq<TextEncoding>

  /** No encoding occurs twice in the table. */
  predicate Distinct(table: Table)
  {
    forall i, j :: 0 <= i < j < |table| ==> table[i] != table[j]
  }

  /** The least index at or after from where the table holds e, or -1. */
  function LeastIndex(table: Table, e: TextEncoding, from: nat): (r: int)
    decreases |table| - from
    ensures r == -1 <==> forall i :: from <= i < |table| ==> table[i] != e
    ensures r != -1 ==> from <= r < |table| && table[r] == e
    ensures r != -1 ==> forall i :: from <= i < r ==> table[i] != e
  {
    if from >= |table| then -1
    else if table[from] == e then from
    else LeastIndex(table, e, from + 1)
  }

  /**
   * What GetFostrianCode computes: (byte)i for the first index i holding the encoding,
   * or NotImplementedException when the encoding (possibly null) is not in the table.
   */
  function CodeOf(table: Table, e: Option<TextEncoding>): Result<byte>
  {
    if e.None? then Failure(EncodingNotImplemented)
    else
      var i := LeastIndex(table, e.value, 0);
      if i < 0 then Failure(EncodingNotImplemented) else Success((i % 256) as byte)
  }

  /** GetFostrianEncoding: the table entry at the code, or an index error past its end. */
  function GetFostrianEncoding(table: Table, code: byte): (r: Result<TextEncoding>)
    ensures r.Success? <==> (code as int) < |table|
    ensures r.Success? ==> r.value == table[code] && r.value in table
    ensures r.Failure? ==> r.error == IndexOutOfRange
  {
    if code as int < |table| then Success(table[code]) else Failure(IndexOutOfRange)
  }

  /** GetFostrianCode: a linear scan of the table for the encoding. */
  method GetFostrianCode(table: Table, e: Option<TextEncoding>) returns (r: Result<byte>)
    ensures r.Success? <==> e.Some? && e.value in table
    ensures r.Success? ==> exists i :: 0 <= i < |table| && table[i] == e.value && r.value as int == i % 256
    ensures r.Success? && |table| <= 256 ==> table[r.value] == e.value
    ensures r.Failure? ==> r.error == EncodingNotImplemented
    ensures r == CodeOf(table, e)
  {
    var i := 0;
    while i < |table|
      invariant 0 <= i <= |table|
      invariant forall j :: 0 <= j < i ==> Some(table[j]) != e
    {
      if Some(table[i]) == e {
        return Success((i % 256) as byte);
      }
      i := i + 1;
    }
    return Failure(EncodingNotImplemented);
  }

  /** An encoding in a table of at most 256 entries survives code and back. */
  lemma CodeThenEncoding(table: Table, e: TextEncoding)
    requires |table| <= 256 && e in table
    ensures CodeOf(table, Some(e)).Success?
    ensures GetFostrianEncoding(table, CodeOf(table, Some(e)).value) == Success(e)
  {
  }

  /** In a table without repeats, every in-range code survives encoding and back. */
  lemma EncodingThenCode(table: Table, code: byte)
    requires Distinct(table) && (code as int) < |table|
    ensures GetFostrianEncoding(table, code).Success?
    ensures CodeOf(table, Some(GetFostrianEncoding(table, code).value)) == Success(code)
  {
    var i := LeastIndex(table, table[code], 0);
    assert i == code as int;
  }
}
