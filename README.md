# HiGHS: Markowitz kernel store and info-record registry

This project models two small parts of the HiGHS linear-optimisation solver
and proves properties of them in Dafny.

**The active-kernel bookkeeping of the LU factorisation (`HFactor`).** While
HFactor searches for Markowitz pivots, it keeps the not-yet-factored part of
the matrix, the *kernel*, in two stores:

- A column-wise store, the `mc_*` arrays. Each column owns a reserved region
  of the shared `mc_index`/`mc_value` arrays. Its *active* entries grow
  upwards from the start of the region. Its *non-active* entries grow
  downwards from the end of the region.
- A row-wise store of column indices only, the `mr_*` arrays. It has the
  same region layout, with one entry list per row.

Columns and rows are also threaded through doubly linked *count buckets*:
`first` holds each bucket's head, and `next`/`last` link the members. The
head's `last` field holds the code `-2 - count`, so `clinkDel`/`rlinkDel`
can recover the bucket of a head.

Each operation is an imperative method on arrays and is proved against a
function on a value snapshot of those arrays:

- `colInsert`, `colStoreN` and `colDelete`, in `kernel_columns.dfy`
- `rowInsert` and `rowDelete`, in `kernel_rows.dfy`
- `clinkAdd`, `clinkDel`, `rlinkAdd` and `rlinkDel`, in `count_links.dfy`

The properties are proved as lemmas about those functions:

- an insert appends to the column's entries;
- a store puts the entry in front of the non-active entries;
- a delete removes exactly one entry, the first occurrence, by
  swap-with-last;
- every other column, row or bucket is left unchanged;
- the well-formedness of the layout, or of the linked buckets, is preserved.

The linked buckets are described by a ghost sequence of buckets.
`segments.dfy` holds the sequence facts that the two kernel stores share.

**The info-record registry (`HighsInfo`).** `HighsInfo` derives from the
plain statistics struct `HighsInfoStruct`. `initRecords` builds a list of
twelve records. Each record gives a name, a description, an "advanced" flag
and a default to one field of the struct. Its constructor writes that
default into the field through a pointer.

In `highs_info.dfy` the struct is a datatype value, the field `data` of class
`HighsInfo`. A record names its field by an identifier instead of holding a
pointer, and the write through the pointer is a functional update of `data`.

The proofs cover the following:
- the list `initRecords` appends, in order;
- the struct it leaves behind: registered fields at their defaults, the four
  unregistered fields unchanged;
- that every record is bound to the field its name names, and no two
  records share a field;
- the effect of the default constructor, the copy constructor and both
  assignment operators.

## Model

| member | source | states |
|---|---|---|
| Segments.FirstIndexOf | src/util/HFactor.h:514 | the position the delete search stops at holds the wanted index, and no earlier position does (line 529 is the same search in rowDelete) |
| Segments.FindFrom | src/util/HFactor.h:514 | the `while (index[idel] != x) idel++` scan ends inside the searched segment, at the first occurrence of x (line 529 is the same loop in rowDelete) |
| Segments.SwapRemoveMultiset | src/util/HFactor.h:513-517 | shortening by one (line 513) and copying the last entry over slot k (lines 516-517) removes exactly one copy of the deleted entry and keeps every other entry with its multiplicity; lines 528 and 530 do the same in rowDelete |
| KernelColumns.InsertAppends | src/util/HFactor.h:492-494 | colInsert into a column with room appends (iRow, value) to its active entries, leaves its non-active entries, keeps the layout well formed and leaves every other column unchanged |
| KernelColumns.StoreNPrepends | src/util/HFactor.h:496-501 | colStoreN into a column with room puts (iRow, value) in front of its non-active entries, leaves its active entries, keeps the layout well formed and leaves every other column unchanged |
| KernelColumns.DeleteFindsFirst | src/util/HFactor.h:510-519 | colDelete picks the first active entry with row iRow, and the value it returns is that entry's value |
| KernelColumns.DeleteRemoves | src/util/HFactor.h:510-519 | colDelete of a present row removes exactly that (row, value) pair from the active entries by swap-with-last, shortens them by one, keeps non-active entries and other columns, and keeps the layout well formed |
| KernelColumns.DeleteEntry | src/util/HFactor.h:510-519 | the in-place body of colDelete (decrement, search, copy of the last entry over the found one) produces exactly the Delete snapshot and returns the deleted value |
| KernelColumns.ColumnStore.ColInsert | src/util/HFactor.h:485-495 | the arrays become the Insert of the old ones; when the column had room the store stays valid, the entry is appended and nothing else changes |
| KernelColumns.ColumnStore.ColStoreN | src/util/HFactor.h:496-501 | the arrays become the StoreN of the old ones; when the column had room the store stays valid, the entry is prepended to the non-active entries and nothing else changes |
| KernelColumns.ColumnStore.ColDelete | src/util/HFactor.h:510-519 | the arrays become the Delete of the old ones; the store stays valid, the returned pair leaves the active multiset, and nothing else changes |
| KernelRows.InsertAppends | src/util/HFactor.h:521-524 | rowInsert into a row with room appends iCol to the row's entries, keeps the layout well formed and leaves every other row unchanged |
| KernelRows.DeleteRemoves | src/util/HFactor.h:526-531 | rowDelete of a present column removes exactly one occurrence of it (the first) by swap-with-last, shortens the row by one, keeps the layout well formed and leaves every other row unchanged |
| KernelRows.DeleteEntry | src/util/HFactor.h:526-531 | the in-place body of rowDelete produces exactly the Delete snapshot |
| KernelRows.RowStore.RowInsert | src/util/HFactor.h:521-524 | the arrays become the Insert of the old ones; when the row had room the store stays valid, iCol is appended and nothing else changes |
| KernelRows.RowStore.RowDelete | src/util/HFactor.h:526-531 | the arrays become the Delete of the old ones; the store stays valid, one copy of iCol leaves the row's multiset, and nothing else changes |
| CountLinks.HeadCode | src/util/HFactor.h:535 | the head code `-2 - count` of a bucket is never a member index and decodes back to `count` |
| CountLinks.AddLinks | src/util/HFactor.h:533-539 | linking an unlinked index at the head of bucket `count` keeps first/next/last a faithful encoding of the buckets, with index in front of the old members |
| CountLinks.DelLinks | src/util/HFactor.h:541-549 | unlinking a linked index keeps the arrays a faithful encoding of the buckets with exactly that index removed, whether it was a head (bucket decoded from last) or not |
| CountLinks.DelAfterAdd | src/util/HFactor.h:533-549 | a delete straight after an add of the same index restores the buckets, the heads, and the next/last fields of every other index |
| CountLinks.LinkAdd | src/util/HFactor.h:533-539 | the in-place body shared by clinkAdd and rlinkAdd produces exactly the Add snapshot |
| CountLinks.LinkDel | src/util/HFactor.h:541-549 | the in-place body shared by clinkDel and rlinkDel produces exactly the Del snapshot |
| CountLinks.CountLinkLists.ClinkAdd | src/util/HFactor.h:533-539 | the column links stay valid, index joins the head of its count's bucket, and the row links are untouched |
| CountLinks.CountLinkLists.ClinkDel | src/util/HFactor.h:541-549 | the column links stay valid, index leaves its bucket, and the row links are untouched |
| CountLinks.CountLinkLists.RlinkAdd | src/util/HFactor.h:551-557 | the row links stay valid, index joins the head of its count's bucket, and the column links are untouched |
| CountLinks.CountLinkLists.RlinkDel | src/util/HFactor.h:559-567 | the row links stay valid, index leaves its bucket, and the column links are untouched |
| HighsInfo.IntRecord | src/lp_data/HighsInfo.h:51-57 | an InfoRecordInt has type kInt and is bound to the given integer field with the given default |
| HighsInfo.DoubleRecord | src/lp_data/HighsInfo.h:66-72 | an InfoRecordDouble has type kDouble and is bound to the given double field with the given default |
| HighsInfo.ApplyFrame | src/lp_data/HighsInfo.h:51-72 | the write `*value = default_value` (line 56 for an integer record, line 71 for a double record) sets the bound field to the default and leaves every other field of the struct as it was |
| HighsInfo.ApplyDefaultsSets | src/lp_data/HighsInfo.h:176-245 | constructing records bound to distinct fields one after the other leaves each bound field at its default and every other field unchanged |
| HighsInfo.InfoRecordNames | src/lp_data/HighsInfo.h:182-244 | initRecords registers exactly twelve records, with these names in this order |
| HighsInfo.InfoRecordsTyped | src/lp_data/HighsInfo.h:182-244 | every registered record has the type tag of its kind and is not advanced |
| HighsInfo.NamesMatchFields | src/lp_data/HighsInfo.h:182-244 | every registered record is bound to the struct field its name spells |
| HighsInfo.InfoRecordsDistinct | src/lp_data/HighsInfo.h:182-244 | no two registered records are bound to the same field |
| HighsInfo.InfoRecordFields | src/lp_data/HighsInfo.h:116-133 | the registered fields are exactly the struct's fields other than mip_dual_bound and mip_gap (valid and mip_node_count are never registered either) |
| HighsInfo.InitRecordsDefaults | src/lp_data/HighsInfo.h:176-245 | constructing the registered records in order leaves the iteration counts at 0, both statuses at -1 ("not set"), the infeasibility counts at -1, the five registered doubles at 0, and valid, mip_node_count, mip_dual_bound and mip_gap as they were |
| HighsInfo.HighsInfo.RegisterInt | src/lp_data/HighsInfo.h:182-185 | one InfoRecordInt step: the list grows by the next registered record and only the bound field changes, to its default |
| HighsInfo.HighsInfo.RegisterDouble | src/lp_data/HighsInfo.h:211-214 | one InfoRecordDouble step: the list grows by the next registered record and only the bound field changes, to its default |
| HighsInfo.HighsInfo.RegisterIterationCounts | src/lp_data/HighsInfo.h:182-195 | records 0 to 2 are appended and the three iteration counts become 0 |
| HighsInfo.HighsInfo.RegisterStatuses | src/lp_data/HighsInfo.h:197-209 | records 3 and 4 are appended and both statuses become "not set" |
| HighsInfo.HighsInfo.RegisterPrimalInfeasibilities | src/lp_data/HighsInfo.h:216-229 | records 6 to 8 are appended, the count becomes -1 and the maximum and sum become 0 |
| HighsInfo.HighsInfo.RegisterDualInfeasibilities | src/lp_data/HighsInfo.h:231-244 | records 9 to 11 are appended, the count becomes -1 and the maximum and sum become 0 |
| HighsInfo.HighsInfo.InitRecords | src/lp_data/HighsInfo.h:176-245 | the twelve registered records are appended to the list in order, and the struct becomes Defaulted of the old struct |
| HighsInfo.HighsInfo.constructor | src/lp_data/HighsInfo.h:137 | a new HighsInfo holds exactly the twelve registered records and the defaulted struct |
| HighsInfo.HighsInfo.Copy | src/lp_data/HighsInfo.h:139-142 | a copy has a record list equal to the twelve registered records, and every struct field equal to the source's |
| HighsInfo.HighsInfo.Assign | src/lp_data/HighsInfo.h:149-155 | self-assignment changes nothing; otherwise the struct becomes the other's, and the records are built only if the list was empty, otherwise kept |
| HighsInfo.HighsInfo.MoveAssign | src/lp_data/HighsInfo.h:157-163 | the same as the copy assignment: self-assignment changes nothing, otherwise the struct is copied and the records are built only if the list was empty |

## Left out

- colFixMax (src/util/HFactor.h:502-508): a maximum over `fabs` of doubles times `pivot_threshold`. Floating point is not modelled.
- colInsert's debug check (src/util/HFactor.h:486-491): the `fabs(value) < kHighsTiny` test prints a message and asserts. The model has no I/O and does not model floating-point magnitudes, so this check is not modelled.
- KernelColumns.ColumnStore.ColInsert, KernelColumns.ColumnStore.ColStoreN, KernelRows.RowStore.RowInsert: these require the store invariant Valid() (distinct arrays, every column or row inside its reserved region, regions pairwise disjoint), which HFactor maintains between calls, and an in-bounds write, but not that the column or row has room; the source itself demands only the in-bounds write. They promise validity and "nothing else changes" only when the column or row still had room. Without room, the write lands on a neighbouring entry, which the source leaves to its callers.
- KernelColumns.ColumnStore.ColDelete, KernelRows.RowStore.RowDelete: the source's search loop has no bound and relies on the index being present. The model states presence as a precondition.
- colDelete's unused local `mc_count_a_iCol_og` (src/util/HFactor.h:511) has no effect and is not modelled.
- `HighsInt`, `int64_t` and `int` are unbounded integers, and `double` is `real`. No overflow or rounding is modelled.
- The rest of HFactor (build, the pivot search itself, invert, update, solves) is not part of this model.
- The link arrays treat any negative value as "none", exactly as the `>= 0` tests of the source do.
- HConst.h is not part of this model. `kHighsPrimalDualStatusNotset` is taken as -1, because that is what the status records' descriptions give.
- Pointers: a record names the struct field it is bound to by an identifier. Writing through the pointer is an update of the struct value `data`. The model therefore cannot say which object a record's pointer points into.
- The move constructor (src/lp_data/HighsInfo.h:144-147) and the destructor (165-167, with deleteRecords 172-174) are not modelled. The move constructor takes over the other object's records, whose pointers still point into that other object's fields. The identifier model above cannot express that.
- `clear`, getInfoIndex, checkInfo, getLocalInfoValue, writeInfoToFile and reportInfo are declarations only in the header, or do file output, and are not modelled. The `InfoStatus` codes belong to them and are left out too.
- The C++ constructors leave the struct uninitialised before initRecords runs. `initial` (an argument of HighsInfo.HighsInfo.constructor and HighsInfo.HighsInfo.Copy) stands for those indeterminate contents.
- HighsInfo.HighsInfo.Copy: the C++ copy constructor builds new records whose pointers point into the copy's own fields. The model states only that the new record list equals the twelve registered records; which object the records write through is not expressed (see the line on pointers above).
- initRecords is straight-line code. The model keeps its twelve construct-and-push steps in source order, but groups them into four helper methods (one per family of struct fields) plus the single objective-value step. The grouping keeps each proof small; it has no counterpart in the source.
- HighsInfo.HighsInfo.RegisterInt, HighsInfo.HighsInfo.RegisterDouble: each step takes its record's name and description from the tables RegisteredName and RegisteredDescription by position, instead of spelling the twelve string literals in InitRecords' own body. Long string literals make every proof that mentions them expensive. As a consequence, "initRecords registers these names" (HighsInfo.InfoRecordNames) holds by the construction of those tables; the independent check of the names is HighsInfo.NamesMatchFields, which ties each name to the struct field the record is bound to.
