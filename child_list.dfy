/**
 * The list operations behind a node's child list, on plain sequences: List<T>.Remove and
 * the loops of RemoveAll and RemoveRange as the source writes them.
 */
module ChildList {

  /** The first index holding x, or -1 (List<T>.IndexOf). */
  function IndexOf<T(==)>(s: seq<T>, x: T): (r: int)
    ensures r == -1 <==> x !in s
    ensures r != -1 ==> 0 <= r < |s| && s[r] == x && x !in s[..r]
  {
    if s == [] then -1
    else if s[0] == x then 0
    else
      var k := IndexOf(s[1..], x);
      assert s[1..][..if k < 0 then 0 else k] == s[1..1 + if k < 0 then 0 else k];
      if k == -1 then -1 else k + 1
  }

  /** List<T>.Remove: drops the first occurrence of x, if there is one, and keeps the rest in order. */
  function RemoveFirst<T(==)>(s: seq<T>, x: T): (r: seq<T>)
    ensures |r| == if x in s then |s| - 1 else |s|
  {
    if s == [] then []
    else if s[0] == x then s[1..]
    else
      assert x in s <==> x in s[1..];
      [s[0]] + RemoveFirst(s[1..], x)
  }

  /**
   * Remove against IndexOf: without x the list is unchanged, and otherwise exactly the
   * element at the first index holding x is gone.
   */
  lemma {:induction false} RemoveFirstAt<T>(s: seq<T>, x: T)
    ensures x !in s ==> RemoveFirst(s, x) == s
    ensures x in s ==> RemoveFirst(s, x) == s[..IndexOf(s, x)] + s[IndexOf(s, x) + 1..]
  {
    if s != [] && s[0] != x {
      RemoveFirstAt(s[1..], x);
      assert s == [s[0]] + s[1..];
      if x in s {
        var k := IndexOf(s[1..], x);
        assert s[..k + 1] == [s[0]] + s[1..][..k];
        assert s[k + 2..] == s[1..][k + 1..];
      }
    }
  }

  /** Remove keeps only elements that were there. */
  lemma {:induction false} RemoveFirstSubset<T>(s: seq<T>, x: T)
    ensures forall y :: y in RemoveFirst(s, x) ==> y in s
  {
    if s != [] && s[0] != x {
      RemoveFirstSubset(s[1..], x);
    }
  }

  /** Remove takes away exactly one copy of x when x is present. */
  lemma {:induction false} RemoveFirstMultiset<T>(s: seq<T>, x: T)
    requires x in s
    ensures multiset(RemoveFirst(s, x)) + multiset{x} == multiset(s)
  {
    assert s == [s[0]] + s[1..];
    if s[0] != x {
      RemoveFirstMultiset(s[1..], x);
    }
  }

  /**
   * The RemoveAll loop from index i on: at each index whose element matches, that element
   * is removed (its first occurrence) and the index still moves on by one. Returns the list
   * left and the elements handed to Remove, in order.
   */
  function RemoveAllFrom<T(==)>(s: seq<T>, i: nat, p: T -> bool): (r: (seq<T>, seq<T>))
    decreases |s| - i
    ensures multiset(r.0) + multiset(r.1) == multiset(s)
    ensures forall x :: x in r.1 ==> p(x)
    ensures forall x :: x in r.0 ==> x in s
  {
    if i >= |s| then (s, [])
    else if p(s[i]) then
      RemoveFirstMultiset(s, s[i]);
      var next := RemoveAllFrom(RemoveFirst(s, s[i]), i + 1, p);
      assert forall x :: x in next.0 ==> x in multiset(s);
      (next.0, [s[i]] + next.1)
    else RemoveAllFrom(s, i + 1, p)
  }

  /** RemoveAll never drops an element that does not match, and keeps every copy of it. */
  lemma RemoveAllKeepsUnmatched<T>(s: seq<T>, p: T -> bool, x: T)
    requires !p(x)
    ensures multiset(RemoveAllFrom(s, 0, p).0)[x] == multiset(s)[x]
  {
    var r := RemoveAllFrom(s, 0, p);
    assert x !in r.1;
    assert multiset(r.1)[x] == 0;
  }

  /** What the RemoveRange loop leaves: the list, the elements removed, and whether it ran to the end. */
  datatype RangeRemoval<T> = RangeRemoval(rest: seq<T>, removed: seq<T>, completed: bool)

  /**
   * The RemoveRange loop from index i up to (not including) stop: RemoveAt(i) on the list
   * as it is at that moment, which fetches the element at i and removes its first
   * occurrence; an index outside the current list stops the loop with an error.
   */
  function RemoveRangeFrom<T(==)>(s: seq<T>, i: int, stop: int): (r: RangeRemoval<T>)
    decreases stop - i
    ensures r.completed ==> |r.removed| == if stop <= i then 0 else stop - i
  {
    if i >= stop then RangeRemoval(s, [], true)
    else if i < 0 || i >= |s| then RangeRemoval(s, [], false)
    else
      var x := s[i];
      var next := RemoveRangeFrom(RemoveFirst(s, x), i + 1, stop);
      RangeRemoval(next.rest, [x] + next.removed, next.completed)
  }

  /** The RemoveRange loop neither loses nor invents elements: what is left plus what was removed is the list. */
  lemma {:induction false} RemoveRangeConserves<T>(s: seq<T>, i: int, stop: int)
    ensures multiset(RemoveRangeFrom(s, i, stop).rest) + multiset(RemoveRangeFrom(s, i, stop).removed) == multiset(s)
    decreases stop - i
  {
    if i < stop && 0 <= i < |s| {
      var t := RemoveFirst(s, s[i]);
      RemoveFirstMultiset(s, s[i]);
      RemoveRangeConserves(t, i + 1, stop);
    }
  }

  /**
   * The RemoveRange loop completes exactly when every index it visits is still inside the
   * shrinking list: n = stop - i steps from a valid index i need i + 2(n - 1) < |s|.
   */
  lemma {:induction false} RemoveRangeCompletes<T>(s: seq<T>, i: int, stop: int)
    ensures RemoveRangeFrom(s, i, stop).completed <==> (stop <= i || (0 <= i && 2 * stop - i - 2 < |s|))
    decreases stop - i
  {
    if stop <= i {
    } else if i < 0 || i >= |s| {
      assert !RemoveRangeFrom(s, i, stop).completed;
    } else {
      var t := RemoveFirst(s, s[i]);
      assert |t| == |s| - 1;
      assert RemoveRangeFrom(s, i, stop).completed == RemoveRangeFrom(t, i + 1, stop).completed;
      RemoveRangeCompletes(t, i + 1, stop);
    }
  }

  /** No element occurs twice. */
  predicate Distinct<T(==)>(s: seq<T>)
  {
    forall a, b :: 0 <= a < b < |s| ==> s[a] != s[b]
  }

  /** Remove of the element at i drops exactly position i when no earlier position holds it. */
  lemma {:induction false} RemoveFirstAtFirst<T>(s: seq<T>, i: int)
    requires 0 <= i < |s| && forall j :: 0 <= j < i ==> s[j] != s[i]
    ensures RemoveFirst(s, s[i]) == s[..i] + s[i + 1..]
  {
    if i > 0 {
      var u := s[1..];
      assert s[0] != s[i] && u[i - 1] == s[i];
      assert RemoveFirst(s, s[i]) == [s[0]] + RemoveFirst(u, u[i - 1]);
      assert forall j :: 0 <= j < i - 1 ==> u[j] != u[i - 1] by {
        forall j | 0 <= j < i - 1 ensures u[j] != u[i - 1] {
          assert u[j] == s[j + 1];
        }
      }
      RemoveFirstAtFirst(u, i - 1);
      assert s[..i] == [s[0]] + u[..i - 1];
      assert s[i + 1..] == u[i..];
    }
  }

  /** Removing one position keeps a list free of repeats. */
  lemma DistinctWithout<T>(s: seq<T>, i: int)
    requires Distinct(s) && 0 <= i < |s|
    ensures Distinct(s[..i] + s[i + 1..])
  {
    var t := s[..i] + s[i + 1..];
    forall a, b | 0 <= a < b < |t| ensures t[a] != t[b] {
      var a' := if a < i then a else a + 1;
      var b' := if b < i then b else b + 1;
      assert t[a] == s[a'] && t[b] == s[b'];
    }
  }

  /** On a list without repeats, removing the element at i keeps it free of repeats and shifts what follows i left by one. */
  lemma DistinctRemove<T>(s: seq<T>, i: int)
    requires Distinct(s) && 0 <= i < |s|
    ensures Distinct(RemoveFirst(s, s[i])) && |RemoveFirst(s, s[i])| == |s| - 1
    ensures forall j :: i <= j < |s| - 1 ==> RemoveFirst(s, s[i])[j] == s[j + 1]
  {
    assert forall j :: 0 <= j < i ==> s[j] != s[i];
    RemoveFirstAtFirst(s, i);
    DistinctWithout(s, i);
  }

  /** The RemoveRange loop stops, leaving the list as it is, once the index reaches stop or leaves the list. */
  lemma RemoveRangeStops<T>(s: seq<T>, i: int, stop: int)
    requires stop <= i || i < 0 || i >= |s|
    ensures RemoveRangeFrom(s, i, stop) == RangeRemoval(s, [], stop <= i)
  {
  }

  /** A removal run with the elements p removed before it. */
  function PrefixedBy<T>(p: seq<T>, rr: RangeRemoval<T>): RangeRemoval<T>
  {
    RangeRemoval(rr.rest, p + rr.removed, rr.completed)
  }

  /**
   * One step of the RemoveRange loop at a valid index, with the elements p removed before:
   * the element there is the next one removed, and the list goes on without it.
   */
  lemma RemoveRangeAdvance<T>(p: seq<T>, s: seq<T>, i: int, stop: int)
    requires i < stop && 0 <= i < |s|
    ensures PrefixedBy(p, RemoveRangeFrom(s, i, stop))
      == PrefixedBy(p + [s[i]], RemoveRangeFrom(RemoveFirst(s, s[i]), i + 1, stop))
    ensures forall y :: y in RemoveFirst(s, s[i]) ==> y in s
  {
    var next := RemoveRangeFrom(RemoveFirst(s, s[i]), i + 1, stop);
    assert p + ([s[i]] + next.removed) == (p + [s[i]]) + next.removed;
    RemoveFirstSubset(s, s[i]);
  }

  /** A RemoveRange loop that removed anything started at a valid index, and its first removal was the element there. */
  lemma RemoveRangeStarts<T>(s: seq<T>, i: int, stop: int)
    requires |RemoveRangeFrom(s, i, stop).removed| > 0
    ensures i < stop && 0 <= i < |s|
    ensures RemoveRangeFrom(s, i, stop).removed == [s[i]] + RemoveRangeFrom(RemoveFirst(s, s[i]), i + 1, stop).removed
  {
  }

  /**
   * On a list without repeats, the k-th element RemoveRange removes is the one that stood
   * at i + 2k: every removal shifts the rest left while the index moves right.
   */
  lemma {:induction false} RemoveRangeSkips<T>(s: seq<T>, i: int, stop: int, k: nat)
    requires Distinct(s) && 0 <= i
    requires k < |RemoveRangeFrom(s, i, stop).removed|
    ensures i + 2 * k < |s| && RemoveRangeFrom(s, i, stop).removed[k] == s[i + 2 * k]
    decreases stop - i
  {
    RemoveRangeStarts(s, i, stop);
    var t := RemoveFirst(s, s[i]);
    var removed := RemoveRangeFrom(s, i, stop).removed;
    var later := RemoveRangeFrom(t, i + 1, stop).removed;
    assert removed == [s[i]] + later;
    if k > 0 {
      assert removed[k] == later[k - 1];
      RemoveRangeSkipsOn(s, i, stop, k);
    }
  }

  /** The inductive step of RemoveRangeSkips: the k-th removal from s is the (k-1)-th from the list without s[i]. */
  lemma {:induction false} RemoveRangeSkipsOn<T>(s: seq<T>, i: int, stop: int, k: nat)
    requires Distinct(s) && 0 <= i < |s| && 0 < k
    requires k - 1 < |RemoveRangeFrom(RemoveFirst(s, s[i]), i + 1, stop).removed|
    ensures i + 2 * k < |s|
    ensures RemoveRangeFrom(RemoveFirst(s, s[i]), i + 1, stop).removed[k - 1] == s[i + 2 * k]
    decreases stop - i, 0
  {
    var t := RemoveFirst(s, s[i]);
    DistinctRemove(s, i);
    RemoveRangeSkips(t, i + 1, stop, k - 1);
  }
}
