/** The count link lists of HFactor's Markowitz search (`col_link_*` and
    `row_link_*`).

    Every column (row) of the active kernel sits in the doubly linked
    bucket of its current count.  `first[count]` is the bucket's head (a
    negative value for an empty bucket), `next[i]` the following member (a
    negative value at the end) and `last[i]` the preceding member, except
    that a head stores the code -2 - count there, from which deletion
    recovers the bucket.  The abstract view is a ghost sequence `buckets`
    with buckets[count] the members of bucket `count`, head first. */
module CountLinks {

  /** A value snapshot of the three arrays of one family of link lists. */
  datatype Links = Links(first: seq<int>, next: seq<int>, last: seq<int>)

  /** What `-xlast - 2` decodes a head's last field to. */
  function BucketOf(code: int): int {
    -code - 2
  }

  /** The last field of the head of bucket `count`: a negative code, never a
      member index, that decodes back to `count`. */
  function HeadCode(count: int): (code: int)
    ensures count >= 0 ==> code < -1
    ensures BucketOf(code) == count
  {
    -2 - count
  }

  /** Every member of every bucket is an index below n. */
  ghost predicate InRange(buckets: seq<seq<int>>, n: int) {
    forall b, i :: 0 <= b < |buckets| && 0 <= i < |buckets[b]| ==> 0 <= buckets[b][i] < n
  }

  /** No index occurs twice, in one bucket or in two. */
  ghost predicate Distinct(buckets: seq<seq<int>>) {
    forall b, i, c, j ::
      0 <= b < |buckets| && 0 <= i < |buckets[b]| &&
      0 <= c < |buckets| && 0 <= j < |buckets[c]| &&
      buckets[b][i] == buckets[c][j]
      ==> b == c && i == j
  }

  /** first[b] is the head of bucket b, or negative when it is empty. */
  ghost predicate Heads(first: seq<int>, buckets: seq<seq<int>>)
    requires |buckets| == |first|
  {
    forall b :: 0 <= b < |buckets| ==>
      if buckets[b] == [] then first[b] < 0 else first[b] == buckets[b][0]
  }

  /** next leads from each member to the following one, and is negative at
      the end of a bucket. */
  ghost predicate Nexts(next: seq<int>, buckets: seq<seq<int>>)
    requires InRange(buckets, |next|)
  {
    forall b, i {:trigger next[buckets[b][i]]} :: 0 <= b < |buckets| && 0 <= i < |buckets[b]| ==>
      if i + 1 < |buckets[b]| then next[buckets[b][i]] == buckets[b][i + 1]
      else next[buckets[b][i]] < 0
  }

  /** last leads from each member to the preceding one, and holds the head
      code of the bucket at its head. */
  ghost predicate Lasts(last: seq<int>, buckets: seq<seq<int>>)
    requires InRange(buckets, |last|)
  {
    forall b, i {:trigger last[buckets[b][i]]} :: 0 <= b < |buckets| && 0 <= i < |buckets[b]| ==>
      last[buckets[b][i]] == if i == 0 then HeadCode(b) else buckets[b][i - 1]
  }

  /** buckets describes the arrays of s: the members are valid distinct
      indices, each head is in `first`, and `next`/`last` chain each bucket
      in order. */
  ghost predicate Linked(s: Links, buckets: seq<seq<int>>) {
    && |s.next| == |s.last| && |buckets| == |s.first|
    && InRange(buckets, |s.next|)
    && Distinct(buckets)
    && Heads(s.first, buckets)
    && Nexts(s.next, buckets)
    && Lasts(s.last, buckets)
  }

  /** index is in no bucket. */
  ghost predicate Unlinked(buckets: seq<seq<int>>, index: int) {
    forall b :: 0 <= b < |buckets| ==> index !in buckets[b]
  }

  /** L with every occurrence of x dropped, the others in their order. */
  function Without(L: seq<int>, x: int): seq<int> {
    if L == [] then []
    else (if L[0] == x then [] else [L[0]]) + Without(L[1..], x)
  }

  /** Every bucket with x dropped. */
  function Unlink(buckets: seq<seq<int>>, x: int): seq<seq<int>> {
    seq(|buckets|, b requires 0 <= b < |buckets| => Without(buckets[b], x))
  }

  /** What clinkAdd/rlinkAdd needs to stay inside the arrays. */
  predicate CanAdd(s: Links, index: int, count: int) {
    && |s.next| == |s.last|
    && 0 <= index < |s.next| && 0 <= count < |s.first|
    && s.first[count] < |s.last|
  }

  /** clinkAdd/rlinkAdd: index becomes the head of bucket count and the old
      head, if any, points back to it. */
  function Add(s: Links, index: int, count: int): Links
    requires CanAdd(s, index, count)
  {
    var mover := s.first[count];
    var last1 := s.last[index := HeadCode(count)];
    Links(s.first[count := index],
          s.next[index := mover],
          if mover >= 0 then last1[mover := index] else last1)
  }

  /** What clinkDel/rlinkDel needs to stay inside the arrays. */
  predicate CanDel(s: Links, index: int) {
    && |s.next| == |s.last| && 0 <= index < |s.next|
    && (s.last[index] >= 0 ==> s.last[index] < |s.next|)
    && (s.last[index] < 0 ==> 0 <= BucketOf(s.last[index]) < |s.first|)
    && (s.next[index] >= 0 ==> s.next[index] < |s.last|)
  }

  /** clinkDel/rlinkDel: the predecessor (or, for a head, the bucket decoded
      from its last field) is linked to the successor and back. */
  function Del(s: Links, index: int): Links
    requires CanDel(s, index)
  {
    var xlast := s.last[index];
    var xnext := s.next[index];
    Links(if xlast >= 0 then s.first else s.first[BucketOf(xlast) := xnext],
          if xlast >= 0 then s.next[xlast := xnext] else s.next,
          if xnext >= 0 then s.last[xnext := xlast] else s.last)
  }

  lemma {:induction false} WithoutAbsent(L: seq<int>, x: int)
    requires x !in L
    ensures Without(L, x) == L
  {
    if L != [] {
      assert x !in L[1..];
      WithoutAbsent(L[1..], x);
      assert L == [L[0]] + L[1..];
    }
  }

  /** Dropping an element that occurs exactly once, at position k, is
      cutting position k out. */
  lemma {:induction false} WithoutOnce(L: seq<int>, k: int)
    requires 0 <= k < |L|
    requires forall j :: 0 <= j < |L| && j != k ==> L[j] != L[k]
    ensures Without(L, L[k]) == L[..k] + L[k + 1..]
  {
    var x := L[k];
    if k == 0 {
      assert x !in L[1..];
      WithoutAbsent(L[1..], x);
    } else {
      var T := L[1..];
      assert T[k - 1] == x;
      forall j | 0 <= j < |T| && j != k - 1 ensures T[j] != T[k - 1] {
        assert T[j] == L[j + 1];
      }
      WithoutOnce(T, k - 1);
      assert L[..k] == [L[0]] + T[..k - 1];
      assert L[k + 1..] == T[k..];
    }
  }

  /** Adding an unlinked index at the front of a bucket keeps the members
      in range and distinct. */
  lemma AddShape(buckets: seq<seq<int>>, n: int, index: int, count: int)
    requires InRange(buckets, n) && Distinct(buckets) && Unlinked(buckets, index)
    requires 0 <= index < n && 0 <= count < |buckets|
    ensures InRange(buckets[count := [index] + buckets[count]], n)
    ensures Distinct(buckets[count := [index] + buckets[count]])
  {
    var L := buckets[count];
    var B' := buckets[count := [index] + L];
    // position i of bucket b of B' is position Old(b, i) of buckets
    forall b, i | 0 <= b < |B'| && 0 <= i < |B'[b]| && !(b == count && i == 0)
      ensures B'[b][i] == buckets[b][if b == count then i - 1 else i]
    {
    }
    forall b, i | 0 <= b < |B'| && 0 <= i < |B'[b]|
      ensures 0 <= B'[b][i] < n
    {
    }
    forall b, i, c, j |
      0 <= b < |B'| && 0 <= i < |B'[b]| && 0 <= c < |B'| && 0 <= j < |B'[c]| &&
      B'[b][i] == B'[c][j]
      ensures b == c && i == j
    {
      if b == count && i == 0 {
      } else if c == count && j == 0 {
      } else {
        var i0 := if b == count then i - 1 else i;
        var j0 := if c == count then j - 1 else j;
        assert buckets[b][i0] == buckets[c][j0];
      }
    }
  }

  /** clinkAdd's writes to `next` chain the enlarged bucket. */
  lemma AddNexts(next: seq<int>, buckets: seq<seq<int>>, index: int, count: int, mover: int)
    requires InRange(buckets, |next|) && Nexts(next, buckets) && Unlinked(buckets, index)
    requires 0 <= index < |next| && 0 <= count < |buckets|
    requires if buckets[count] == [] then mover < 0 else mover == buckets[count][0]
    requires InRange(buckets[count := [index] + buckets[count]], |next|)
    ensures Nexts(next[index := mover], buckets[count := [index] + buckets[count]])
  {
    var L := buckets[count];
    var B' := buckets[count := [index] + L];
    var next' := next[index := mover];
    forall b, i | 0 <= b < |B'| && 0 <= i < |B'[b]|
      ensures if i + 1 < |B'[b]| then next'[B'[b][i]] == B'[b][i + 1] else next'[B'[b][i]] < 0
    {
      if b == count && i == 0 {
        assert B'[b][i] == index;
        if L != [] { assert B'[b][1] == L[0]; }
      } else if b == count {
        var x := L[i - 1];
        assert B'[b][i] == x;
        assert x != index by { assert index !in L; }
        assert if i < |L| then next[x] == L[i] else next[x] < 0;
        if i < |L| { assert B'[b][i + 1] == L[i]; }
      } else {
        var x := buckets[b][i];
        assert B'[b] == buckets[b];
        assert x != index by { assert index !in buckets[b]; }
        assert Nexts(next, buckets);
        assert 0 <= b < |buckets| && 0 <= i < |buckets[b]|;
        assert i + 1 < |buckets[b]| ==> next[x] == buckets[b][i + 1];
        assert i + 1 >= |buckets[b]| ==> next[x] < 0;
      }
    }
  }

  /** clinkAdd's writes to `last` chain the enlarged bucket backwards. */
  lemma AddLasts(last: seq<int>, buckets: seq<seq<int>>, index: int, count: int, mover: int)
    requires InRange(buckets, |last|) && Lasts(last, buckets)
    requires Distinct(buckets) && Unlinked(buckets, index)
    requires 0 <= index < |last| && 0 <= count < |buckets|
    requires if buckets[count] == [] then mover < 0 else mover == buckets[count][0]
    requires InRange(buckets[count := [index] + buckets[count]], |last|)
    ensures var last1 := last[index := HeadCode(count)];
      Lasts(if mover >= 0 then last1[mover := index] else last1,
            buckets[count := [index] + buckets[count]])
  {
    var L := buckets[count];
    var B' := buckets[count := [index] + L];
    var last1 := last[index := HeadCode(count)];
    var last' := if mover >= 0 then last1[mover := index] else last1;
    forall b, i | 0 <= b < |B'| && 0 <= i < |B'[b]|
      ensures last'[B'[b][i]] == if i == 0 then HeadCode(b) else B'[b][i - 1]
    {
      if b == count && i == 0 {
        assert mover >= 0 ==> mover != index by {
          if mover >= 0 { assert mover in L; }
        }
      } else if b == count && i == 1 {
        assert B'[b][i] == L[0] == mover;
      } else if b == count {
        assert B'[b][i] == L[i - 1] && B'[b][i - 1] == L[i - 2];
        assert L[i - 1] != index;
        assert L[i - 1] != L[0];
      } else {
        assert B'[b][i] != index by { assert index !in buckets[b]; }
        if L != [] { assert B'[b][i] != L[0]; }
      }
    }
  }

  /** clinkAdd applied to an unlinked index makes it the head of bucket
      `count`, ahead of the old members in their old order. */
  lemma AddLinks(s: Links, buckets: seq<seq<int>>, index: int, count: int)
    requires Linked(s, buckets)
    requires 0 <= index < |s.next| && 0 <= count < |s.first|
    requires Unlinked(buckets, index)
    ensures CanAdd(s, index, count)
    ensures Linked(Add(s, index, count), buckets[count := [index] + buckets[count]])
  {
    var L := buckets[count];
    var B' := buckets[count := [index] + L];
    var mover := s.first[count];
    assert if L == [] then mover < 0 else mover == L[0];
    AddShape(buckets, |s.next|, index, count);
    AddNexts(s.next, buckets, index, count, mover);
    AddLasts(s.last, buckets, index, count, mover);
    var r := Add(s, index, count);
    assert Heads(r.first, B');
  }

  /** Cutting one member out of a bucket keeps the members in range and
      distinct. */
  lemma DelShape(buckets: seq<seq<int>>, n: int, b: int, k: int)
    requires InRange(buckets, n) && Distinct(buckets)
    requires 0 <= b < |buckets| && 0 <= k < |buckets[b]|
    ensures InRange(buckets[b := buckets[b][..k] + buckets[b][k + 1..]], n)
    ensures Distinct(buckets[b := buckets[b][..k] + buckets[b][k + 1..]])
  {
    var L := buckets[b];
    var B' := buckets[b := L[..k] + L[k + 1..]];
    forall c, i | 0 <= c < |B'| && 0 <= i < |B'[c]|
      ensures B'[c][i] == buckets[c][if c == b && i >= k then i + 1 else i]
    {
    }
    forall c, i, d, j |
      0 <= c < |B'| && 0 <= i < |B'[c]| && 0 <= d < |B'| && 0 <= j < |B'[d]| &&
      B'[c][i] == B'[d][j]
      ensures c == d && i == j
    {
      var i0 := if c == b && i >= k then i + 1 else i;
      var j0 := if d == b && j >= k then j + 1 else j;
      assert buckets[c][i0] == buckets[d][j0];
    }
  }

  /** clinkDel's write to `first` (when index was a head) keeps the heads. */
  lemma DelHeads(first: seq<int>, next: seq<int>, buckets: seq<seq<int>>, b: int, k: int)
    requires |buckets| == |first| && InRange(buckets, |next|)
    requires Heads(first, buckets) && Nexts(next, buckets)
    requires 0 <= b < |buckets| && 0 <= k < |buckets[b]|
    ensures Heads(if k == 0 then first[b := next[buckets[b][k]]] else first,
                  buckets[b := buckets[b][..k] + buckets[b][k + 1..]])
  {
    var L := buckets[b];
    var B' := buckets[b := L[..k] + L[k + 1..]];
    var first' := if k == 0 then first[b := next[L[k]]] else first;
    forall c | 0 <= c < |B'|
      ensures if B'[c] == [] then first'[c] < 0 else first'[c] == B'[c][0]
    {
      if c == b && k == 0 {
        if |L| > 1 { assert B'[c][0] == L[1]; }
      } else if c == b {
        assert B'[c][0] == L[0];
      }
    }
  }

  /** clinkDel's write to `next` (when index had a predecessor) keeps the
      forward chains. */
  lemma DelNexts(next: seq<int>, buckets: seq<seq<int>>, b: int, k: int)
    requires InRange(buckets, |next|) && Distinct(buckets) && Nexts(next, buckets)
    requires 0 <= b < |buckets| && 0 <= k < |buckets[b]|
    requires InRange(buckets[b := buckets[b][..k] + buckets[b][k + 1..]], |next|)
    ensures Nexts(if k > 0 then next[buckets[b][k - 1] := next[buckets[b][k]]] else next,
                  buckets[b := buckets[b][..k] + buckets[b][k + 1..]])
  {
    var L := buckets[b];
    var L' := L[..k] + L[k + 1..];
    var B' := buckets[b := L'];
    var next' := if k > 0 then next[L[k - 1] := next[L[k]]] else next;
    forall c, i | 0 <= c < |B'| && 0 <= i < |B'[c]|
      ensures if i + 1 < |B'[c]| then next'[B'[c][i]] == B'[c][i + 1] else next'[B'[c][i]] < 0
    {
      if c == b && i + 1 == k {
        assert B'[c][i] == L[k - 1];
        if k + 1 < |L| { assert B'[c][i + 1] == L[k + 1]; }
      } else if c == b && i + 1 < k {
        assert B'[c][i] == L[i] && B'[c][i + 1] == L[i + 1];
        assert L[i] != L[k - 1];
      } else if c == b {
        assert B'[c][i] == L[i + 1];
        if i + 1 < |L'| { assert B'[c][i + 1] == L[i + 2]; }
        assert k > 0 ==> L[i + 1] != L[k - 1];
      } else {
        assert k > 0 ==> B'[c][i] != L[k - 1];
      }
    }
  }

  /** clinkDel's write to `last` (when index had a successor) keeps the
      backward chains. */
  lemma DelLasts(last: seq<int>, buckets: seq<seq<int>>, b: int, k: int)
    requires InRange(buckets, |last|) && Distinct(buckets) && Lasts(last, buckets)
    requires 0 <= b < |buckets| && 0 <= k < |buckets[b]|
    requires InRange(buckets[b := buckets[b][..k] + buckets[b][k + 1..]], |last|)
    ensures Lasts(if k + 1 < |buckets[b]| then last[buckets[b][k + 1] := last[buckets[b][k]]] else last,
                  buckets[b := buckets[b][..k] + buckets[b][k + 1..]])
  {
    var L := buckets[b];
    var L' := L[..k] + L[k + 1..];
    var B' := buckets[b := L'];
    var last' := if k + 1 < |L| then last[L[k + 1] := last[L[k]]] else last;
    forall c, i | 0 <= c < |B'| && 0 <= i < |B'[c]|
      ensures last'[B'[c][i]] == if i == 0 then HeadCode(c) else B'[c][i - 1]
    {
      if c == b && i == k {
        assert B'[c][i] == L[k + 1];
        if k > 0 { assert B'[c][i - 1] == L[k - 1]; }
      } else if c == b && i < k {
        assert B'[c][i] == L[i];
        if i > 0 { assert B'[c][i - 1] == L[i - 1]; }
        assert k + 1 < |L| ==> L[i] != L[k + 1];
      } else if c == b {
        assert B'[c][i] == L[i + 1] && B'[c][i - 1] == L[i];
        assert L[i + 1] != L[k + 1];
      } else {
        assert k + 1 < |L| ==> B'[c][i] != L[k + 1];
      }
    }
  }

  /** clinkDel of the member at position k of bucket b cuts it out of that
      bucket. */
  lemma DelAt(s: Links, buckets: seq<seq<int>>, b: int, k: int)
    requires Linked(s, buckets)
    requires 0 <= b < |buckets| && 0 <= k < |buckets[b]|
    ensures CanDel(s, buckets[b][k])
    ensures Linked(Del(s, buckets[b][k]), buckets[b := buckets[b][..k] + buckets[b][k + 1..]])
  {
    var L := buckets[b];
    var index := L[k];
    assert s.last[index] == if k == 0 then HeadCode(b) else L[k - 1];
    assert if k + 1 < |L| then s.next[index] == L[k + 1] else s.next[index] < 0;
    assert k > 0 ==> 0 <= L[k - 1];
    DelShape(buckets, |s.next|, b, k);
    DelHeads(s.first, s.next, buckets, b, k);
    DelNexts(s.next, buckets, b, k);
    DelLasts(s.last, buckets, b, k);
  }

  /** Dropping the member at position k of bucket b from every bucket cuts
      it out of bucket b and changes no other bucket. */
  lemma UnlinkAt(buckets: seq<seq<int>>, b: int, k: int)
    requires Distinct(buckets)
    requires 0 <= b < |buckets| && 0 <= k < |buckets[b]|
    ensures Unlink(buckets, buckets[b][k]) == buckets[b := buckets[b][..k] + buckets[b][k + 1..]]
  {
    var x := buckets[b][k];
    var B' := buckets[b := buckets[b][..k] + buckets[b][k + 1..]];
    forall c | 0 <= c < |buckets|
      ensures Unlink(buckets, x)[c] == B'[c]
    {
      if c == b {
        WithoutOnce(buckets[b], k);
      } else {
        assert x !in buckets[c];
        WithoutAbsent(buckets[c], x);
      }
    }
  }

  /** clinkDel applied to a linked index removes exactly that index from its
      bucket, keeping the other members in order, and leaves the other
      buckets alone. */
  lemma DelLinks(s: Links, buckets: seq<seq<int>>, index: int)
    requires Linked(s, buckets)
    requires !Unlinked(buckets, index)
    ensures CanDel(s, index)
    ensures Linked(Del(s, index), Unlink(buckets, index))
  {
    var b :| 0 <= b < |buckets| && index in buckets[b];
    var k :| 0 <= k < |buckets[b]| && buckets[b][k] == index;
    DelAt(s, buckets, b, k);
    UnlinkAt(buckets, b, k);
  }

  /** clinkDel straight after clinkAdd(index, count) restores the buckets,
      and the arrays except the two fields of index itself. */
  lemma DelAfterAdd(s: Links, buckets: seq<seq<int>>, index: int, count: int)
    requires Linked(s, buckets)
    requires 0 <= index < |s.next| && 0 <= count < |s.first|
    requires Unlinked(buckets, index)
    ensures CanAdd(s, index, count) && CanDel(Add(s, index, count), index)
    ensures Del(Add(s, index, count), index).first == s.first
    ensures forall y :: 0 <= y < |s.next| && y != index ==>
      Del(Add(s, index, count), index).next[y] == s.next[y] &&
      Del(Add(s, index, count), index).last[y] == s.last[y]
    ensures Unlink(buckets[count := [index] + buckets[count]], index) == buckets
  {
    var B' := buckets[count := [index] + buckets[count]];
    AddLinks(s, buckets, index, count);
    assert index in B'[count];
    DelLinks(Add(s, index, count), B', index);
    var mover := s.first[count];
    assert buckets[count] != [] ==> mover == buckets[count][0] && s.last[mover] == HeadCode(count);
    forall c | 0 <= c < |buckets|
      ensures Unlink(B', index)[c] == buckets[c]
    {
      WithoutAbsent(buckets[c], index);
      if c == count {
        assert B'[c] == [index] + buckets[c];
        assert Without([index] + buckets[c], index) == Without(buckets[c], index);
      }
    }
  }

  /** One family's arrays as a snapshot. */
  ghost function Snapshot(first: array<int>, next: array<int>, last: array<int>): Links
    reads first, next, last
  {
    Links(first[..], next[..], last[..])
  }

  /** The shared body of clinkAdd and rlinkAdd on one family's arrays. */
  method LinkAdd(first: array<int>, next: array<int>, last: array<int>, index: int, count: int)
    requires first != next && first != last && next != last
    requires CanAdd(Snapshot(first, next, last), index, count)
    modifies first, next, last
    ensures Snapshot(first, next, last) == Add(old(Snapshot(first, next, last)), index, count)
  {
    var mover := first[count];
    last[index] := HeadCode(count);
    next[index] := mover;
    first[count] := index;
    if mover >= 0 {
      last[mover] := index;
    }
  }

  /** The shared body of clinkDel and rlinkDel on one family's arrays. */
  method LinkDel(first: array<int>, next: array<int>, last: array<int>, index: int)
    requires first != next && first != last && next != last
    requires CanDel(Snapshot(first, next, last), index)
    modifies first, next, last
    ensures Snapshot(first, next, last) == Del(old(Snapshot(first, next, last)), index)
  {
    var xlast := last[index];
    var xnext := next[index];
    if xlast >= 0 {
      next[xlast] := xnext;
    } else {
      first[-xlast - 2] := xnext;
    }
    if xnext >= 0 {
      last[xnext] := xlast;
    }
  }

  /** The column and row count link lists of HFactor, updated in place. */
  class CountLinkLists {
    var colFirst: array<int>  // col_link_first
    var colNext: array<int>   // col_link_next
    var colLast: array<int>   // col_link_last
    var rowFirst: array<int>  // row_link_first
    var rowNext: array<int>   // row_link_next
    var rowLast: array<int>   // row_link_last
    ghost var colBuckets: seq<seq<int>>
    ghost var rowBuckets: seq<seq<int>>

    ghost function ColLinks(): Links
      reads this`colFirst, this`colNext, this`colLast, colFirst, colNext, colLast
    {
      Snapshot(colFirst, colNext, colLast)
    }

    ghost function RowLinks(): Links
      reads this`rowFirst, this`rowNext, this`rowLast, rowFirst, rowNext, rowLast
    {
      Snapshot(rowFirst, rowNext, rowLast)
    }

    /** The column family's arrays are distinct and encode colBuckets. */
    ghost predicate ColValid()
      reads this`colFirst, this`colNext, this`colLast, this`colBuckets, colFirst, colNext, colLast
    {
      && colFirst != colNext && colFirst != colLast && colNext != colLast
      && Linked(ColLinks(), colBuckets)
    }

    /** The row family's arrays are distinct and encode rowBuckets. */
    ghost predicate RowValid()
      reads this`rowFirst, this`rowNext, this`rowLast, this`rowBuckets, rowFirst, rowNext, rowLast
    {
      && rowFirst != rowNext && rowFirst != rowLast && rowNext != rowLast
      && Linked(RowLinks(), rowBuckets)
    }

    /** Both families are valid and share no array. */
    ghost predicate Valid()
      reads this, colFirst, colNext, colLast, rowFirst, rowNext, rowLast
    {
      && colFirst != rowFirst && colFirst != rowNext && colFirst != rowLast
      && colNext != rowFirst && colNext != rowNext && colNext != rowLast
      && colLast != rowFirst && colLast != rowNext && colLast != rowLast
      && ColValid() && RowValid()
    }

    /** clinkAdd: index joins the column bucket of its count, at the head. */
    method ClinkAdd(index: int, count: int)
      requires Valid() && 0 <= index < colNext.Length && 0 <= count < colFirst.Length
      requires Unlinked(colBuckets, index)
      modifies this`colBuckets, colFirst, colNext, colLast
      ensures Valid()
      ensures ColLinks() == Add(old(ColLinks()), index, count)
      ensures colBuckets == old(colBuckets)[count := [index] + old(colBuckets)[count]]
      ensures RowLinks() == old(RowLinks()) && rowBuckets == old(rowBuckets)
    {
      ghost var s0, b0 := ColLinks(), colBuckets;
      AddLinks(s0, b0, index, count);
      LinkAdd(colFirst, colNext, colLast, index, count);
      colBuckets := b0[count := [index] + b0[count]];
      assert Linked(ColLinks(), colBuckets);
    }

    /** clinkDel: index leaves its column bucket. */
    method ClinkDel(index: int)
      requires Valid() && !Unlinked(colBuckets, index)
      modifies this`colBuckets, colFirst, colNext, colLast
      ensures Valid()
      ensures CanDel(old(ColLinks()), index)
      ensures ColLinks() == Del(old(ColLinks()), index)
      ensures colBuckets == Unlink(old(colBuckets), index)
      ensures RowLinks() == old(RowLinks()) && rowBuckets == old(rowBuckets)
    {
      ghost var s0, b0, r0 := ColLinks(), colBuckets, RowLinks();
      DelLinks(s0, b0, index);
      ghost var nb := Unlink(b0, index);
      LinkDel(colFirst, colNext, colLast, index);
      assert RowLinks() == r0;
      colBuckets := nb;
      assert ColLinks() == Del(s0, index);
    }

    /** rlinkAdd: index joins the row bucket of its count, at the head. */
    method RlinkAdd(index: int, count: int)
      requires Valid() && 0 <= index < rowNext.Length && 0 <= count < rowFirst.Length
      requires Unlinked(rowBuckets, index)
      modifies this`rowBuckets, rowFirst, rowNext, rowLast
      ensures Valid()
      ensures RowLinks() == Add(old(RowLinks()), index, count)
      ensures rowBuckets == old(rowBuckets)[count := [index] + old(rowBuckets)[count]]
      ensures ColLinks() == old(ColLinks()) && colBuckets == old(colBuckets)
    {
      ghost var s0, b0 := RowLinks(), rowBuckets;
      AddLinks(s0, b0, index, count);
      LinkAdd(rowFirst, rowNext, rowLast, index, count);
      rowBuckets := b0[count := [index] + b0[count]];
      assert Linked(RowLinks(), rowBuckets);
    }

    /** rlinkDel: index leaves its row bucket. */
    method RlinkDel(index: int)
      requires Valid() && !Unlinked(rowBuckets, index)
      modifies this`rowBuckets, rowFirst, rowNext, rowLast
      ensures Valid()
      ensures CanDel(old(RowLinks()), index)
      ensures RowLinks() == Del(old(RowLinks()), index)
      ensures rowBuckets == Unlink(old(rowBuckets), index)
      ensures ColLinks() == old(ColLinks()) && colBuckets == old(colBuckets)
    {
      ghost var s0, b0, c0 := RowLinks(), rowBuckets, ColLinks();
      DelLinks(s0, b0, index);
      ghost var nb := Unlink(b0, index);
      LinkDel(rowFirst, rowNext, rowLast, index);
      assert ColLinks() == c0;
      rowBuckets := nb;
      assert RowLinks() == Del(s0, index);
    }
  }
}
