/** The row-wise mirror of the Markowitz kernel in HFactor (the `mr_*`
    arrays): column indices only, no values.  Row r owns the reserved region
    [mr_start[r], mr_start[r] + mr_space[r]) of `mr_index`, and its entries
    fill the region upwards from mr_start[r] (mr_count[r] of them). */
module KernelRows {
  import opened Segments

  /** A value snapshot of the row-wise kernel arrays. */
  datatype Rows = Rows(
    start: seq<int>,  // mr_start
    count: seq<int>,  // mr_count
    space: seq<int>,  // mr_space
    index: seq<int>)  // mr_index

  predicate Shaped(s: Rows) {
    |s.count| == |s.start| && |s.space| == |s.start|
  }

  /** Row r's count fits in its reserved region, and the region lies
      inside `mr_index`. */
  predicate RowFits(s: Rows, r: int) {
    && Shaped(s) && 0 <= r < |s.start|
    && 0 <= s.start[r] && 0 <= s.count[r] && s.count[r] <= s.space[r]
    && s.start[r] + s.space[r] <= |s.index|
  }

  /** Every row fits in its region and the regions of distinct rows do not
      overlap. */
  ghost predicate WellFormed(s: Rows) {
    && Shaped(s)
    && (forall r {:trigger RowFits(s, r)} {:trigger s.start[r]} :: 0 <= r < |s.start| ==> RowFits(s, r))
    && RegionsDisjoint(s.start, s.space)
  }

  predicate HasRoom(s: Rows, iRow: int)
    requires Shaped(s) && 0 <= iRow < |s.start|
  {
    s.count[iRow] < s.space[iRow]
  }

  /** The column indices in row iRow, lowest position first. */
  function RowEntries(s: Rows, iRow: int): seq<int>
    requires RowFits(s, iRow)
  {
    s.index[s.start[iRow]..s.start[iRow] + s.count[iRow]]
  }

  /** Rows other than iRow hold the same column indices in t as in s, and no
      row moved or changed its reserved space. */
  ghost predicate OthersUnchanged(s: Rows, t: Rows, iRow: int)
    requires WellFormed(s) && WellFormed(t) && |t.start| == |s.start|
  {
    && t.start == s.start && t.space == s.space
    && forall r :: 0 <= r < |s.start| && r != iRow ==> RowEntries(t, r) == RowEntries(s, r)
  }

  /** rowInsert: iCol goes just past the row's entries and the count grows
      by one. */
  function Insert(s: Rows, iCol: int, iRow: int): Rows
    requires Shaped(s) && 0 <= iRow < |s.start|
    requires 0 <= s.start[iRow] + s.count[iRow] < |s.index|
  {
    var iput := s.start[iRow] + s.count[iRow];
    s.(count := s.count[iRow := s.count[iRow] + 1], index := s.index[iput := iCol])
  }

  /** Overwrites entry k of row r with the row's last entry and drops the
      count by one. */
  function SwapOut(s: Rows, r: int, k: int): Rows
    requires RowFits(s, r) && 0 <= k < s.count[r]
  {
    var lo, n := s.start[r], s.count[r];
    s.(count := s.count[r := n - 1], index := s.index[lo + k := s.index[lo + n - 1]])
  }

  /** rowDelete: the last entry of the row is copied over the first
      occurrence of iCol and the count drops by one. */
  function Delete(s: Rows, iCol: int, iRow: int): Rows
    requires RowFits(s, iRow)
    requires iCol in RowEntries(s, iRow)
  {
    SwapOut(s, iRow, FirstIndexOf(RowEntries(s, iRow), iCol))
  }

  /** Changing the count of one row within its space, and nothing else of
      the layout, keeps the store well formed. */
  lemma RecountKeepsWellFormed(s: Rows, t: Rows, iRow: int)
    requires WellFormed(s) && RowFits(t, iRow)
    requires t.start == s.start && t.space == s.space && |t.index| == |s.index|
    requires t.count == s.count[iRow := t.count[iRow]]
    ensures WellFormed(t)
  {
    forall r | 0 <= r < |t.start|
      ensures RowFits(t, r)
    {
      if r != iRow {
        assert RowFits(s, r);
      }
    }
  }

  /** A write at a slot p outside row r's region, when r's layout and count
      are unchanged, leaves r's entries in place. */
  lemma WriteOutsideKeepsRow(s: Rows, t: Rows, r: int, p: int)
    requires RowFits(s, r) && RowFits(t, r)
    requires t.start[r] == s.start[r] && t.count[r] == s.count[r]
    requires 0 <= p < |s.index| == |t.index| && !InRegion(s.start, s.space, r, p)
    requires t.index == s.index[p := t.index[p]]
    ensures RowEntries(t, r) == RowEntries(s, r)
  {
    SliceUpdateOutside(s.index, p, t.index[p], s.start[r], s.start[r] + s.count[r]);
  }

  /** A write at one slot p of iRow's region leaves every other row alone. */
  lemma WriteInRegionKeepsOthers(s: Rows, t: Rows, iRow: int, p: int)
    requires WellFormed(s) && WellFormed(t) && |t.start| == |s.start|
    requires t.start == s.start && t.space == s.space && |t.index| == |s.index|
    requires forall r :: 0 <= r < |s.start| && r != iRow ==> t.count[r] == s.count[r]
    requires 0 <= iRow < |s.start| && InRegion(s.start, s.space, iRow, p)
    requires t.index == s.index[p := t.index[p]]
    ensures OthersUnchanged(s, t, iRow)
  {
    forall r | 0 <= r < |s.start| && r != iRow
      ensures RowEntries(t, r) == RowEntries(s, r)
    {
      assert RowFits(s, r) && RowFits(t, r);
      RegionsDisjointAt(s.start, s.space, iRow, r, p);
      WriteOutsideKeepsRow(s, t, r, p);
    }
  }

  /** rowInsert into a row with room appends iCol to the row's entries and
      changes nothing else. */
  lemma InsertAppends(s: Rows, iCol: int, iRow: int)
    requires WellFormed(s) && 0 <= iRow < |s.start| && HasRoom(s, iRow)
    ensures s.start[iRow] + s.count[iRow] < |s.index|
    ensures WellFormed(Insert(s, iCol, iRow))
    ensures RowEntries(Insert(s, iCol, iRow), iRow) == RowEntries(s, iRow) + [iCol]
    ensures OthersUnchanged(s, Insert(s, iCol, iRow), iRow)
  {
    assert RowFits(s, iRow);
    var t := Insert(s, iCol, iRow);
    var iput := s.start[iRow] + s.count[iRow];
    RecountKeepsWellFormed(s, t, iRow);
    SliceUpdateAppend(s.index, iCol, s.start[iRow], iput);
    WriteInRegionKeepsOthers(s, t, iRow, iput);
  }

  /** Swap-with-last deletion of entry k of row r, on the entries. */
  lemma SwapOutRow(s: Rows, r: int, k: int)
    requires RowFits(s, r) && 0 <= k < s.count[r]
    ensures RowFits(SwapOut(s, r, k), r)
    ensures RowEntries(SwapOut(s, r, k), r) == SwapRemove(RowEntries(s, r), k)
  {
    SliceSwapRemove(s.index, s.start[r], s.count[r], k);
  }

  /** rowDelete of a column present in the row removes exactly one
      occurrence of it from the row's multiset of entries (the first one,
      overwritten by the last entry) and changes nothing else. */
  lemma DeleteRemoves(s: Rows, iCol: int, iRow: int)
    requires WellFormed(s) && 0 <= iRow < |s.start|
    requires iCol in RowEntries(s, iRow)
    ensures WellFormed(Delete(s, iCol, iRow))
    ensures RowEntries(Delete(s, iCol, iRow), iRow)
         == SwapRemove(RowEntries(s, iRow), FirstIndexOf(RowEntries(s, iRow), iCol))
    ensures |RowEntries(Delete(s, iCol, iRow), iRow)| == |RowEntries(s, iRow)| - 1
    ensures multiset(RowEntries(Delete(s, iCol, iRow), iRow))
         == multiset(RowEntries(s, iRow)) - multiset{iCol}
    ensures OthersUnchanged(s, Delete(s, iCol, iRow), iRow)
  {
    var k := FirstIndexOf(RowEntries(s, iRow), iCol);
    var t := Delete(s, iCol, iRow);
    SwapOutRow(s, iRow, k);
    RecountKeepsWellFormed(s, t, iRow);
    WriteInRegionKeepsOthers(s, t, iRow, s.start[iRow] + k);
    SwapRemoveMultiset(RowEntries(s, iRow), k);
  }

  /** The row-wise kernel arrays as a snapshot. */
  ghost function Snapshot(start: array<int>, count: array<int>, space: array<int>, index: array<int>): Rows
    reads start, count, space, index
  {
    Rows(start[..], count[..], space[..], index[..])
  }

  /** The body of rowDelete over the arrays it reads and writes: searches
      row iRow for the first occurrence of iCol and overwrites it with the
      row's last entry. */
  method DeleteEntry(start: array<int>, count: array<int>, space: array<int>, index: array<int>,
                     iCol: int, iRow: int)
    requires count != start && count != space && count != index
    requires index != start && index != space
    requires RowFits(Snapshot(start, count, space, index), iRow)
    requires iCol in RowEntries(Snapshot(start, count, space, index), iRow)
    modifies count, index
    ensures Snapshot(start, count, space, index) == Delete(old(Snapshot(start, count, space, index)), iCol, iRow)
  {
    ghost var s0 := Snapshot(start, count, space, index);
    ghost var k := FirstIndexOf(RowEntries(s0, iRow), iCol);
    ghost var t := SwapOut(s0, iRow, k);
    ghost var lo, n := s0.start[iRow], s0.count[iRow];
    var idel := start[iRow];
    count[iRow] := count[iRow] - 1;
    var imov := idel + count[iRow];
    assert imov == lo + n - 1;
    assert index[lo..lo + n] == RowEntries(s0, iRow);
    idel := FindFrom(index, idel, n, iCol);
    assert idel == lo + k;
    index[idel] := index[imov];
    assert count[..] == t.count;
    assert index[..] == t.index;
  }

  /** The row-wise kernel arrays of HFactor, updated in place. */
  class RowStore {
    var start: array<int>  // mr_start
    var count: array<int>  // mr_count
    var space: array<int>  // mr_space
    var index: array<int>  // mr_index

    ghost function Snap(): Rows
      reads this, start, count, space, index
    {
      Snapshot(start, count, space, index)
    }

    ghost predicate Valid()
      reads this, start, count, space, index
    {
      && start != count && start != space && start != index
      && count != space && count != index
      && space != index
      && WellFormed(Snap())
    }

    /** rowInsert. */
    method RowInsert(iCol: int, iRow: int)
      requires Valid() && 0 <= iRow < start.Length
      requires start[iRow] + count[iRow] < index.Length
      modifies count, index
      ensures Snap() == Insert(old(Snap()), iCol, iRow)
      ensures old(HasRoom(Snap(), iRow)) ==>
        && Valid()
        && RowEntries(Snap(), iRow) == RowEntries(old(Snap()), iRow) + [iCol]
        && OthersUnchanged(old(Snap()), Snap(), iRow)
    {
      ghost var s0 := Snap();
      var iput := start[iRow] + count[iRow];
      count[iRow] := count[iRow] + 1;
      index[iput] := iCol;
      assert Snap() == Insert(s0, iCol, iRow);
      if HasRoom(s0, iRow) {
        InsertAppends(s0, iCol, iRow);
      }
    }

    /** rowDelete. */
    method RowDelete(iCol: int, iRow: int)
      requires Valid() && 0 <= iRow < start.Length
      requires iCol in RowEntries(Snap(), iRow)
      modifies count, index
      ensures Snap() == Delete(old(Snap()), iCol, iRow)
      ensures Valid()
      ensures multiset(RowEntries(Snap(), iRow)) == multiset(RowEntries(old(Snap()), iRow)) - multiset{iCol}
      ensures OthersUnchanged(old(Snap()), Snap(), iRow)
    {
      ghost var s0 := Snap();
      DeleteEntry(start, count, space, index, iCol, iRow);
      DeleteRemoves(s0, iCol, iRow);
    }
  }
}
