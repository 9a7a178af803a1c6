/** The column-wise Markowitz kernel store of HFactor (the `mc_*` arrays).

    Column c owns the reserved region [mc_start[c], mc_start[c] + mc_space[c])
    of the shared `mc_index`/`mc_value` arrays.  Its active entries fill the
    region upwards from mc_start[c] (mc_count_a[c] of them); its non-active
    entries fill it downwards from the end of the region (mc_count_n[c] of
    them, the most recent one lowest). */
module KernelColumns {
  import opened Segments

  /** A value snapshot of the column-wise kernel arrays. */
  datatype Columns = Columns(
    start: seq<int>,   // mc_start
    countA: seq<int>,  // mc_count_a
    countN: seq<int>,  // mc_count_n
    space: seq<int>,   // mc_space
    index: seq<int>,   // mc_index
    value: seq<real>)  // mc_value

  /** The per-column arrays have one entry per column and the index and
      value arrays have the same length. */
  predicate Shaped(s: Columns) {
    |s.countA| == |s.start| && |s.countN| == |s.start| && |s.space| == |s.start| &&
    |s.value| == |s.index|
  }

  /** Column c's active and non-active counts fit in its reserved region,
      and the region lies inside the storage arrays. */
  predicate ColumnFits(s: Columns, c: int) {
    && Shaped(s) && 0 <= c < |s.start|
    && 0 <= s.start[c] && 0 <= s.countA[c] && 0 <= s.countN[c]
    && s.countA[c] + s.countN[c] <= s.space[c]
    && s.start[c] + s.space[c] <= |s.index|
  }

  /** Every column fits in its region and the regions of distinct columns do
      not overlap. */
  ghost predicate WellFormed(s: Columns) {
    && Shaped(s)
    && (forall c {:trigger ColumnFits(s, c)} {:trigger s.start[c]} :: 0 <= c < |s.start| ==> ColumnFits(s, c))
    && RegionsDisjoint(s.start, s.space)
  }

  /** There is a free slot between the active and the non-active entries. */
  predicate HasRoom(s: Columns, c: int)
    requires Shaped(s) && 0 <= c < |s.start|
  {
    s.countA[c] + s.countN[c] < s.space[c]
  }

  /** The row indices of the active entries of column c. */
  function ActiveRows(s: Columns, c: int): seq<int>
    requires ColumnFits(s, c)
  {
    s.index[s.start[c]..s.start[c] + s.countA[c]]
  }

  /** The active entries of column c, lowest position first. */
  ghost function Active(s: Columns, c: int): seq<Entry>
    requires ColumnFits(s, c)
  {
    Segment(s.index, s.value, s.start[c], s.start[c] + s.countA[c])
  }

  /** The non-active entries of column c, lowest position (most recently
      stored) first. */
  ghost function NonActive(s: Columns, c: int): seq<Entry>
    requires ColumnFits(s, c)
  {
    Segment(s.index, s.value, s.start[c] + s.space[c] - s.countN[c], s.start[c] + s.space[c])
  }

  /** Columns other than iCol hold the same active and non-active entries
      in r as in s, and no column moved or changed its reserved space. */
  ghost predicate OthersUnchanged(s: Columns, r: Columns, iCol: int)
    requires WellFormed(s) && WellFormed(r) && |r.start| == |s.start|
  {
    && r.start == s.start && r.space == s.space
    && forall c :: 0 <= c < |s.start| && c != iCol ==>
         Active(r, c) == Active(s, c) && NonActive(r, c) == NonActive(s, c)
  }

  /** colInsert: the entry goes to the slot just past the active entries and
      the active count grows by one. */
  function Insert(s: Columns, iCol: int, iRow: int, v: real): Columns
    requires Shaped(s) && 0 <= iCol < |s.start|
    requires 0 <= s.start[iCol] + s.countA[iCol] < |s.index|
  {
    var iput := s.start[iCol] + s.countA[iCol];
    s.(countA := s.countA[iCol := s.countA[iCol] + 1],
       index := s.index[iput := iRow],
       value := s.value[iput := v])
  }

  /** colStoreN: the non-active count grows by one and the entry goes to the
      slot that many places below the end of the column's region. */
  function StoreN(s: Columns, iCol: int, iRow: int, v: real): Columns
    requires Shaped(s) && 0 <= iCol < |s.start|
    requires 0 <= s.start[iCol] + s.space[iCol] - (s.countN[iCol] + 1) < |s.index|
  {
    var n := s.countN[iCol] + 1;
    var iput := s.start[iCol] + s.space[iCol] - n;
    s.(countN := s.countN[iCol := n],
       index := s.index[iput := iRow],
       value := s.value[iput := v])
  }

  /** The slot colDelete searches out: the first active entry of iCol whose
      row index is iRow. */
  function DeleteSlot(s: Columns, iCol: int, iRow: int): (p: int)
    requires ColumnFits(s, iCol)
    requires iRow in ActiveRows(s, iCol)
  {
    s.start[iCol] + FirstIndexOf(ActiveRows(s, iCol), iRow)
  }

  /** The value colDelete returns. */
  function DeletedValue(s: Columns, iCol: int, iRow: int): real
    requires ColumnFits(s, iCol)
    requires iRow in ActiveRows(s, iCol)
  {
    s.value[DeleteSlot(s, iCol, iRow)]
  }

  /** Overwrites active entry k of column c with the last active entry and
      drops the active count by one. */
  function SwapOut(s: Columns, c: int, k: int): Columns
    requires ColumnFits(s, c) && 0 <= k < s.countA[c]
  {
    var lo, a := s.start[c], s.countA[c];
    s.(countA := s.countA[c := a - 1],
       index := s.index[lo + k := s.index[lo + a - 1]],
       value := s.value[lo + k := s.value[lo + a - 1]])
  }

  /** colDelete: the last active entry is copied over the first one with
      row index iRow and the active count drops by one. */
  function Delete(s: Columns, iCol: int, iRow: int): Columns
    requires ColumnFits(s, iCol)
    requires iRow in ActiveRows(s, iCol)
  {
    SwapOut(s, iCol, FirstIndexOf(ActiveRows(s, iCol), iRow))
  }

  /** Within a well-formed store the active and the non-active entries of a
      column occupy disjoint slots of its region, and the regions of two
      distinct columns share no slot. */
  lemma SegmentsDisjoint(s: Columns, c: int, d: int, p: int)
    requires WellFormed(s) && 0 <= c < |s.start| && 0 <= d < |s.start|
    ensures s.start[c] <= p < s.start[c] + s.countA[c] ==> p < s.start[c] + s.space[c] - s.countN[c]
    ensures c != d && s.start[c] <= p < s.start[c] + s.space[c] ==> !(s.start[d] <= p < s.start[d] + s.space[d])
  {
    assert ColumnFits(s, c);
    if c != d {
      RegionsDisjointAt(s.start, s.space, c, d, p);
    }
  }

  /** A write at a slot p outside column c's region, when c's layout and
      counts are unchanged, leaves c's entries in place. */
  lemma WriteOutsideKeepsColumn(s: Columns, r: Columns, c: int, p: int)
    requires ColumnFits(s, c) && ColumnFits(r, c)
    requires r.start[c] == s.start[c] && r.space[c] == s.space[c]
    requires r.countA[c] == s.countA[c] && r.countN[c] == s.countN[c]
    requires 0 <= p < |s.index| == |r.index| && !InRegion(s.start, s.space, c, p)
    requires r.index == s.index[p := r.index[p]] && r.value == s.value[p := r.value[p]]
    ensures Active(r, c) == Active(s, c) && NonActive(r, c) == NonActive(s, c)
  {
    var lo, hi := s.start[c], s.start[c] + s.space[c];
    SegmentWriteOutside(s.index, s.value, p, r.index[p], r.value[p], lo, lo + s.countA[c]);
    SegmentWriteOutside(s.index, s.value, p, r.index[p], r.value[p], hi - s.countN[c], hi);
  }

  /** A write at one slot p of iCol's region leaves every other column's
      entries in place. */
  lemma WriteInRegionKeepsOthers(s: Columns, r: Columns, iCol: int, p: int)
    requires WellFormed(s) && WellFormed(r) && |r.start| == |s.start|
    requires r.start == s.start && r.space == s.space
    requires |r.index| == |s.index| && |r.value| == |s.value|
    requires forall c :: 0 <= c < |s.start| && c != iCol ==>
               r.countA[c] == s.countA[c] && r.countN[c] == s.countN[c]
    requires 0 <= iCol < |s.start| && InRegion(s.start, s.space, iCol, p)
    requires r.index == s.index[p := r.index[p]] && r.value == s.value[p := r.value[p]]
    ensures OthersUnchanged(s, r, iCol)
  {
    forall c | 0 <= c < |s.start| && c != iCol
      ensures Active(r, c) == Active(s, c) && NonActive(r, c) == NonActive(s, c)
    {
      assert ColumnFits(s, c) && ColumnFits(r, c);
      RegionsDisjointAt(s.start, s.space, iCol, c, p);
      WriteOutsideKeepsColumn(s, r, c, p);
    }
  }

  /** Changing the counts of one column within its space, and nothing else
      of the layout, keeps the store well formed. */
  lemma RecountKeepsWellFormed(s: Columns, r: Columns, iCol: int)
    requires WellFormed(s) && ColumnFits(r, iCol)
    requires r.start == s.start && r.space == s.space && |r.index| == |s.index|
    requires r.countA == s.countA[iCol := r.countA[iCol]] && r.countN == s.countN[iCol := r.countN[iCol]]
    ensures WellFormed(r)
  {
    forall c | 0 <= c < |r.start|
      ensures ColumnFits(r, c)
    {
      if c != iCol {
        assert ColumnFits(s, c);
      }
    }
  }

  /** colInsert's effect on the column it writes: one more active entry at
      the end, the non-active entries untouched. */
  lemma InsertColumn(s: Columns, iCol: int, iRow: int, v: real)
    requires ColumnFits(s, iCol) && HasRoom(s, iCol)
    ensures s.start[iCol] + s.countA[iCol] < |s.index|
    ensures ColumnFits(Insert(s, iCol, iRow, v), iCol)
    ensures Active(Insert(s, iCol, iRow, v), iCol) == Active(s, iCol) + [Entry(iRow, v)]
    ensures NonActive(Insert(s, iCol, iRow, v), iCol) == NonActive(s, iCol)
  {
    var r := Insert(s, iCol, iRow, v);
    var lo, iput, hi := s.start[iCol], s.start[iCol] + s.countA[iCol], s.start[iCol] + s.space[iCol];
    var nlo := hi - s.countN[iCol];
    assert Active(r, iCol) == Segment(s.index[iput := iRow], s.value[iput := v], lo, iput + 1);
    assert NonActive(r, iCol) == Segment(s.index[iput := iRow], s.value[iput := v], nlo, hi);
    SegmentAppend(s.index, s.value, iRow, v, lo, iput);
    SegmentWriteOutside(s.index, s.value, iput, iRow, v, nlo, hi);
  }

  /** colInsert into a column with room appends (iRow, v) to its active
      entries and changes nothing else. */
  lemma InsertAppends(s: Columns, iCol: int, iRow: int, v: real)
    requires WellFormed(s) && 0 <= iCol < |s.start| && HasRoom(s, iCol)
    ensures s.start[iCol] + s.countA[iCol] < |s.index|
    ensures WellFormed(Insert(s, iCol, iRow, v))
    ensures Active(Insert(s, iCol, iRow, v), iCol) == Active(s, iCol) + [Entry(iRow, v)]
    ensures NonActive(Insert(s, iCol, iRow, v), iCol) == NonActive(s, iCol)
    ensures OthersUnchanged(s, Insert(s, iCol, iRow, v), iCol)
  {
    assert ColumnFits(s, iCol);
    InsertColumn(s, iCol, iRow, v);
    var r := Insert(s, iCol, iRow, v);
    RecountKeepsWellFormed(s, r, iCol);
    WriteInRegionKeepsOthers(s, r, iCol, s.start[iCol] + s.countA[iCol]);
  }

  /** colStoreN's effect on the column it writes: one more non-active entry
      at the front, the active entries untouched. */
  lemma StoreNColumn(s: Columns, iCol: int, iRow: int, v: real)
    requires ColumnFits(s, iCol) && HasRoom(s, iCol)
    ensures 0 <= s.start[iCol] + s.space[iCol] - (s.countN[iCol] + 1) < |s.index|
    ensures ColumnFits(StoreN(s, iCol, iRow, v), iCol)
    ensures NonActive(StoreN(s, iCol, iRow, v), iCol) == [Entry(iRow, v)] + NonActive(s, iCol)
    ensures Active(StoreN(s, iCol, iRow, v), iCol) == Active(s, iCol)
  {
    var r := StoreN(s, iCol, iRow, v);
    var lo, a, hi := s.start[iCol], s.start[iCol] + s.countA[iCol], s.start[iCol] + s.space[iCol];
    var iput := hi - (s.countN[iCol] + 1);
    assert NonActive(r, iCol) == Segment(s.index[iput := iRow], s.value[iput := v], iput, hi);
    assert Active(r, iCol) == Segment(s.index[iput := iRow], s.value[iput := v], lo, a);
    SegmentPrepend(s.index, s.value, iRow, v, iput + 1, hi);
    SegmentWriteOutside(s.index, s.value, iput, iRow, v, lo, a);
  }

  /** colStoreN into a column with room puts (iRow, v) in front of its
      non-active entries and changes nothing else. */
  lemma StoreNPrepends(s: Columns, iCol: int, iRow: int, v: real)
    requires WellFormed(s) && 0 <= iCol < |s.start| && HasRoom(s, iCol)
    ensures 0 <= s.start[iCol] + s.space[iCol] - (s.countN[iCol] + 1) < |s.index|
    ensures WellFormed(StoreN(s, iCol, iRow, v))
    ensures NonActive(StoreN(s, iCol, iRow, v), iCol) == [Entry(iRow, v)] + NonActive(s, iCol)
    ensures Active(StoreN(s, iCol, iRow, v), iCol) == Active(s, iCol)
    ensures OthersUnchanged(s, StoreN(s, iCol, iRow, v), iCol)
  {
    assert ColumnFits(s, iCol);
    StoreNColumn(s, iCol, iRow, v);
    var r := StoreN(s, iCol, iRow, v);
    RecountKeepsWellFormed(s, r, iCol);
    WriteInRegionKeepsOthers(s, r, iCol, s.start[iCol] + s.space[iCol] - (s.countN[iCol] + 1));
  }

  /** Swap-with-last deletion of active entry k of column c, on the
      entries: the active entries lose entry k, the non-active entries stay. */
  lemma SwapOutColumn(s: Columns, c: int, k: int)
    requires ColumnFits(s, c) && 0 <= k < s.countA[c]
    ensures ColumnFits(SwapOut(s, c, k), c)
    ensures Active(SwapOut(s, c, k), c) == SwapRemove(Active(s, c), k)
    ensures NonActive(SwapOut(s, c, k), c) == NonActive(s, c)
  {
    var lo, a, hi := s.start[c], s.countA[c], s.start[c] + s.space[c];
    var nlo := hi - s.countN[c];
    var ix, vs := s.index[lo + k := s.index[lo + a - 1]], s.value[lo + k := s.value[lo + a - 1]];
    var r := SwapOut(s, c, k);
    assert r.index == ix && r.value == vs;
    assert Active(r, c) == Segment(ix, vs, lo, lo + a - 1);
    assert NonActive(r, c) == Segment(ix, vs, nlo, hi);
    SegmentSwapRemove(s.index, s.value, lo, a, k);
    SegmentWriteOutside(s.index, s.value, lo + k, s.index[lo + a - 1], s.value[lo + a - 1], nlo, hi);
  }

  /** colDelete's effect on the column it writes: the active entries lose
      the deleted one by swap-with-last, the non-active entries are
      untouched. */
  lemma DeleteColumn(s: Columns, iCol: int, iRow: int)
    requires ColumnFits(s, iCol) && iRow in ActiveRows(s, iCol)
    ensures ColumnFits(Delete(s, iCol, iRow), iCol)
    ensures Active(Delete(s, iCol, iRow), iCol)
         == SwapRemove(Active(s, iCol), FirstIndexOf(ActiveRows(s, iCol), iRow))
    ensures NonActive(Delete(s, iCol, iRow), iCol) == NonActive(s, iCol)
  {
    SwapOutColumn(s, iCol, FirstIndexOf(ActiveRows(s, iCol), iRow));
  }

  /** The row indices of the active entries are ActiveRows. */
  lemma ActiveRowsOfActive(s: Columns, c: int)
    requires ColumnFits(s, c)
    ensures |Active(s, c)| == |ActiveRows(s, c)|
    ensures forall j :: 0 <= j < |Active(s, c)| ==> Active(s, c)[j].row == ActiveRows(s, c)[j]
  {
  }

  /** colDelete deletes, and returns the value of, the first active entry
      of the column whose row index is iRow. */
  lemma DeleteFindsFirst(s: Columns, iCol: int, iRow: int)
    requires ColumnFits(s, iCol) && iRow in ActiveRows(s, iCol)
    ensures var k := FirstIndexOf(ActiveRows(s, iCol), iRow);
      && DeleteSlot(s, iCol, iRow) == s.start[iCol] + k
      && Active(s, iCol)[k] == Entry(iRow, DeletedValue(s, iCol, iRow))
      && (forall j :: 0 <= j < k ==> Active(s, iCol)[j].row != iRow)
  {
    ActiveRowsOfActive(s, iCol);
  }

  /** colDelete of a row present in the column removes exactly one entry
      (iRow, the returned value) from the multiset of active entries, by
      swapping in the last one, and changes nothing else. */
  lemma DeleteRemoves(s: Columns, iCol: int, iRow: int)
    requires WellFormed(s) && 0 <= iCol < |s.start|
    requires iRow in ActiveRows(s, iCol)
    ensures WellFormed(Delete(s, iCol, iRow))
    ensures Active(Delete(s, iCol, iRow), iCol)
         == SwapRemove(Active(s, iCol), FirstIndexOf(ActiveRows(s, iCol), iRow))
    ensures |Active(Delete(s, iCol, iRow), iCol)| == |Active(s, iCol)| - 1
    ensures multiset(Active(Delete(s, iCol, iRow), iCol))
         == multiset(Active(s, iCol)) - multiset{Entry(iRow, DeletedValue(s, iCol, iRow))}
    ensures NonActive(Delete(s, iCol, iRow), iCol) == NonActive(s, iCol)
    ensures OthersUnchanged(s, Delete(s, iCol, iRow), iCol)
  {
    var k := FirstIndexOf(ActiveRows(s, iCol), iRow);
    DeleteFindsFirst(s, iCol, iRow);
    DeleteColumn(s, iCol, iRow);
    var r := Delete(s, iCol, iRow);
    RecountKeepsWellFormed(s, r, iCol);
    WriteInRegionKeepsOthers(s, r, iCol, DeleteSlot(s, iCol, iRow));
    SwapRemoveMultiset(Active(s, iCol), k);
  }

  /** The column-wise kernel arrays as a snapshot. */
  ghost function Snapshot(start: array<int>, countA: array<int>, countN: array<int>,
                          space: array<int>, index: array<int>, value: array<real>): Columns
    reads start, countA, countN, space, index, value
  {
    Columns(start[..], countA[..], countN[..], space[..], index[..], value[..])
  }

  /** The body of colDelete over the arrays it reads and writes: searches
      the active entries of iCol for the first one with row index iRow,
      returns its value and overwrites it with the last active entry. */
  method DeleteEntry(start: array<int>, countA: array<int>, countN: array<int>,
                     space: array<int>, index: array<int>, value: array<real>,
                     iCol: int, iRow: int) returns (pivotMultiplier: real)
    requires countA != start && countA != countN && countA != space && countA != index
    requires index != start && index != countN && index != space
    requires ColumnFits(Snapshot(start, countA, countN, space, index, value), iCol)
    requires iRow in ActiveRows(Snapshot(start, countA, countN, space, index, value), iCol)
    modifies countA, index, value
    ensures Snapshot(start, countA, countN, space, index, value)
         == Delete(old(Snapshot(start, countA, countN, space, index, value)), iCol, iRow)
    ensures pivotMultiplier == DeletedValue(old(Snapshot(start, countA, countN, space, index, value)), iCol, iRow)
  {
    ghost var s0 := Snapshot(start, countA, countN, space, index, value);
    ghost var k := FirstIndexOf(ActiveRows(s0, iCol), iRow);
    ghost var t := SwapOut(s0, iCol, k);
    ghost var lo, a := s0.start[iCol], s0.countA[iCol];
    var idel := start[iCol];
    countA[iCol] := countA[iCol] - 1;
    var imov := idel + countA[iCol];
    assert imov == lo + a - 1;
    assert index[lo..lo + a] == ActiveRows(s0, iCol);
    idel := FindFrom(index, idel, a, iRow);
    assert idel == lo + k;
    pivotMultiplier := value[idel];
    index[idel] := index[imov];
    value[idel] := value[imov];
    assert countA[..] == t.countA;
    assert index[..] == t.index;
    assert value[..] == t.value;
  }

  /** The column-wise kernel arrays of HFactor, updated in place. */
  class ColumnStore {
    var start: array<int>    // mc_start
    var countA: array<int>   // mc_count_a
    var countN: array<int>   // mc_count_n
    var space: array<int>    // mc_space
    var index: array<int>    // mc_index
    var value: array<real>   // mc_value

    ghost function Snap(): Columns
      reads this, start, countA, countN, space, index, value
    {
      Snapshot(start, countA, countN, space, index, value)
    }

    ghost predicate Valid()
      reads this, start, countA, countN, space, index, value
    {
      && start != countA && start != countN && start != space && start != index
      && countA != countN && countA != space && countA != index
      && countN != space && countN != index
      && space != index
      && WellFormed(Snap())
    }

    /** colInsert (the debug check on tiny values is not modelled). */
    method ColInsert(iCol: int, iRow: int, v: real)
      requires Valid() && 0 <= iCol < start.Length
      requires start[iCol] + countA[iCol] < index.Length
      modifies countA, index, value
      ensures Snap() == Insert(old(Snap()), iCol, iRow, v)
      ensures old(HasRoom(Snap(), iCol)) ==>
        && Valid()
        && Active(Snap(), iCol) == Active(old(Snap()), iCol) + [Entry(iRow, v)]
        && NonActive(Snap(), iCol) == NonActive(old(Snap()), iCol)
        && OthersUnchanged(old(Snap()), Snap(), iCol)
    {
      ghost var s0 := Snap();
      var iput := start[iCol] + countA[iCol];
      countA[iCol] := countA[iCol] + 1;
      index[iput] := iRow;
      value[iput] := v;
      assert Snap() == Insert(s0, iCol, iRow, v);
      if HasRoom(s0, iCol) {
        InsertAppends(s0, iCol, iRow, v);
      }
    }

    /** colStoreN. */
    method ColStoreN(iCol: int, iRow: int, v: real)
      requires Valid() && 0 <= iCol < start.Length
      requires 0 <= start[iCol] + space[iCol] - (countN[iCol] + 1)
      modifies countN, index, value
      ensures Snap() == StoreN(old(Snap()), iCol, iRow, v)
      ensures old(HasRoom(Snap(), iCol)) ==>
        && Valid()
        && NonActive(Snap(), iCol) == [Entry(iRow, v)] + NonActive(old(Snap()), iCol)
        && Active(Snap(), iCol) == Active(old(Snap()), iCol)
        && OthersUnchanged(old(Snap()), Snap(), iCol)
    {
      ghost var s0 := Snap();
      countN[iCol] := countN[iCol] + 1;
      var iput := start[iCol] + space[iCol] - countN[iCol];
      index[iput] := iRow;
      value[iput] := v;
      assert Snap() == StoreN(s0, iCol, iRow, v);
      if HasRoom(s0, iCol) {
        StoreNPrepends(s0, iCol, iRow, v);
      }
    }

    /** colDelete. */
    method ColDelete(iCol: int, iRow: int) returns (pivotMultiplier: real)
      requires Valid() && 0 <= iCol < start.Length
      requires iRow in ActiveRows(Snap(), iCol)
      modifies countA, index, value
      ensures Snap() == Delete(old(Snap()), iCol, iRow)
      ensures pivotMultiplier == DeletedValue(old(Snap()), iCol, iRow)
      ensures Valid()
      ensures multiset(Active(Snap(), iCol))
           == multiset(Active(old(Snap()), iCol)) - multiset{Entry(iRow, pivotMultiplier)}
      ensures NonActive(Snap(), iCol) == NonActive(old(Snap()), iCol)
      ensures OthersUnchanged(old(Snap()), Snap(), iCol)
    {
      ghost var s0 := Snap();
      pivotMultiplier := DeleteEntry(start, countA, countN, space, index, value, iCol, iRow);
      DeleteRemoves(s0, iCol, iRow);
    }
  }
}
