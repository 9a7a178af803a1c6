/** Sequence facts shared by the column-wise and row-wise kernel stores:
    reading a segment of a storage array, swap-with-last deletion, the
    first occurrence of an index, and non-overlapping reserved regions. */
module Segments {

  /** One kernel entry of a column: its row index and its value. */
  datatype Entry = Entry(row: int, value: real)

  /** Deletion by overwriting position k with the last element and
      shortening the segment by one. */
  function SwapRemove<T>(s: seq<T>, k: nat): seq<T>
    requires k < |s|
  {
    s[k := s[|s| - 1]][..|s| - 1]
  }

  /** Swap-with-last deletion removes exactly one copy of the deleted
      element and keeps every other element with its multiplicity; when the
      deleted element is itself the last one, the result is the prefix. */
  lemma SwapRemoveMultiset<T>(s: seq<T>, k: nat)
    requires k < |s|
    ensures |SwapRemove(s, k)| == |s| - 1
    ensures multiset(SwapRemove(s, k)) == multiset(s) - multiset{s[k]}
    ensures k == |s| - 1 ==> SwapRemove(s, k) == s[..k]
  {
    var n := |s| - 1;
    if k == n {
      assert s == s[..n] + [s[n]];
      assert s[k := s[n]] == s;
    } else {
      // s == s[..k] + [s[k]] + s[k+1..n] + [s[n]]
      // SwapRemove(s, k) == s[..k] + [s[n]] + s[k+1..n]
      var r := SwapRemove(s, k);
      assert s == s[..k] + [s[k]] + s[k + 1..n] + [s[n]];
      assert r == s[..k] + [s[n]] + s[k + 1..n];
      calc {
        multiset(r);
        multiset(s[..k]) + multiset{s[n]} + multiset(s[k + 1..n]);
        multiset(s[..k] + [s[k]] + s[k + 1..n] + [s[n]]) - multiset{s[k]};
        multiset(s) - multiset{s[k]};
      }
    }
  }

  /** The entries stored at positions [lo, hi) of an index array and a value
      array, lowest position first. */
  ghost function Segment(ix: seq<int>, vs: seq<real>, lo: int, hi: int): (r: seq<Entry>)
    requires 0 <= lo <= hi <= |ix| && |vs| == |ix|
    ensures |r| == hi - lo
    ensures forall k :: 0 <= k < |r| ==> r[k] == Entry(ix[lo + k], vs[lo + k])
    decreases hi - lo
  {
    if lo == hi then [] else Segment(ix, vs, lo, hi - 1) + [Entry(ix[hi - 1], vs[hi - 1])]
  }

  /** A write outside [lo, hi) leaves the entries of that segment alone. */
  lemma SegmentWriteOutside(ix: seq<int>, vs: seq<real>, p: int, x: int, y: real, lo: int, hi: int)
    requires 0 <= lo <= hi <= |ix| && |vs| == |ix| && 0 <= p < |ix|
    requires p < lo || hi <= p
    ensures Segment(ix[p := x], vs[p := y], lo, hi) == Segment(ix, vs, lo, hi)
  {
    var A, B := Segment(ix[p := x], vs[p := y], lo, hi), Segment(ix, vs, lo, hi);
    forall k | 0 <= k < |A| ensures A[k] == B[k] {
      assert lo + k != p;
    }
  }

  /** A write just past the segment [lo, hi) appends one entry to it. */
  lemma SegmentAppend(ix: seq<int>, vs: seq<real>, x: int, y: real, lo: int, hi: int)
    requires 0 <= lo <= hi < |ix| && |vs| == |ix|
    ensures Segment(ix[hi := x], vs[hi := y], lo, hi + 1) == Segment(ix, vs, lo, hi) + [Entry(x, y)]
  {
    var A, B := Segment(ix[hi := x], vs[hi := y], lo, hi + 1), Segment(ix, vs, lo, hi) + [Entry(x, y)];
    forall k | 0 <= k < |A| ensures A[k] == B[k] {
      if k < hi - lo {
        assert B[k] == Segment(ix, vs, lo, hi)[k];
      }
    }
  }

  /** A write just before the segment [lo, hi) prepends one entry to it. */
  lemma SegmentPrepend(ix: seq<int>, vs: seq<real>, x: int, y: real, lo: int, hi: int)
    requires 0 < lo <= hi <= |ix| && |vs| == |ix|
    ensures Segment(ix[lo - 1 := x], vs[lo - 1 := y], lo - 1, hi) == [Entry(x, y)] + Segment(ix, vs, lo, hi)
  {
    var A, B := Segment(ix[lo - 1 := x], vs[lo - 1 := y], lo - 1, hi), [Entry(x, y)] + Segment(ix, vs, lo, hi);
    forall k | 0 <= k < |A| ensures A[k] == B[k] {
      if k > 0 {
        assert B[k] == Segment(ix, vs, lo, hi)[k - 1];
      }
    }
  }

  /** Copying the last entry of the segment [lo, lo + n) over its entry k
      and dropping the last position is swap-with-last deletion of the
      segment's entries. */
  lemma SegmentSwapRemove(ix: seq<int>, vs: seq<real>, lo: int, n: int, k: nat)
    requires 0 <= lo && k < n && lo + n <= |ix| && |vs| == |ix|
    ensures Segment(ix[lo + k := ix[lo + n - 1]], vs[lo + k := vs[lo + n - 1]], lo, lo + n - 1)
         == SwapRemove(Segment(ix, vs, lo, lo + n), k)
  {
    var S := Segment(ix, vs, lo, lo + n);
    var A, B := Segment(ix[lo + k := ix[lo + n - 1]], vs[lo + k := vs[lo + n - 1]], lo, lo + n - 1), SwapRemove(S, k);
    forall j | 0 <= j < |A| ensures A[j] == B[j] {
      if j == k {
        assert B[j] == S[n - 1];
      } else {
        assert B[j] == S[j];
      }
    }
  }

  /** The position of the first occurrence of x in s. */
  function FirstIndexOf(s: seq<int>, x: int): (k: nat)
    requires x in s
    ensures k < |s| && s[k] == x
    ensures forall j :: 0 <= j < k ==> s[j] != x
  {
    if s[0] == x then 0 else 1 + FirstIndexOf(s[1..], x)
  }

  /** The search loop of colDelete and rowDelete: scans a upwards from lo
      for x, which the caller guarantees to occur among a[lo..lo + n], and
      stops at its first occurrence (no earlier slot holds x, by the
      contract of FirstIndexOf). */
  method FindFrom(a: array<int>, lo: int, ghost n: int, x: int) returns (p: int)
    requires 0 <= lo && 0 <= n && lo + n <= a.Length && x in a[lo..lo + n]
    ensures lo <= p < lo + n && a[p] == x
    ensures p == lo + FirstIndexOf(a[lo..lo + n], x)
  {
    ghost var k := FirstIndexOf(a[lo..lo + n], x);
    p := lo;
    while a[p] != x
      invariant lo <= p <= lo + k
      invariant forall j :: lo <= j < p ==> a[j] != x
      decreases lo + k - p
    {
      p := p + 1;
    }
  }

  // The Slice lemmas below state, for one plain sequence, the facts the
  // Segment lemmas above state for (index, value) pairs: the row-wise store
  // keeps column indices only, with no value array to pair them with.

  /** Writing outside [lo, hi) leaves the segment s[lo..hi] unchanged. */
  lemma SliceUpdateOutside<T>(s: seq<T>, p: int, x: T, lo: int, hi: int)
    requires 0 <= p < |s| && 0 <= lo <= hi <= |s|
    requires p < lo || hi <= p
    ensures s[p := x][lo..hi] == s[lo..hi]
  {
  }

  /** Writing at position hi of an array extends the segment [lo, hi) by x. */
  lemma SliceUpdateAppend<T>(s: seq<T>, x: T, lo: int, hi: int)
    requires 0 <= lo <= hi < |s|
    ensures s[hi := x][lo..hi + 1] == s[lo..hi] + [x]
  {
  }

  /** Copying position lo + n - 1 over lo + k and dropping the last position
      of the segment [lo, lo + n) is swap-with-last deletion of the segment. */
  lemma SliceSwapRemove<T>(s: seq<T>, lo: int, n: int, k: nat)
    requires 0 <= lo && k < n && lo + n <= |s|
    ensures s[lo + k := s[lo + n - 1]][lo..lo + n - 1] == SwapRemove(s[lo..lo + n], k)
  {
  }

  /** Position p lies in the reserved region [start[c], start[c] + space[c]). */
  predicate InRegion(start: seq<int>, space: seq<int>, c: int, p: int)
    requires 0 <= c < |start| == |space|
  {
    start[c] <= p < start[c] + space[c]
  }

  /** The reserved regions of distinct columns (or rows) do not overlap. */
  ghost predicate RegionsDisjoint(start: seq<int>, space: seq<int>)
    requires |start| == |space|
  {
    forall c, d :: 0 <= c < |start| && 0 <= d < |start| && c != d ==>
      space[c] <= 0 || space[d] <= 0 ||
      start[c] + space[c] <= start[d] || start[d] + space[d] <= start[c]
  }

  /** No position belongs to the regions of two distinct columns. */
  lemma RegionsDisjointAt(start: seq<int>, space: seq<int>, c: int, d: int, p: int)
    requires |start| == |space| && RegionsDisjoint(start, space)
    requires 0 <= c < |start| && 0 <= d < |start| && c != d
    ensures !(InRegion(start, space, c, p) && InRegion(start, space, d, p))
  {
  }
}
