# Adaptive string column, modelled in Dafny

This project models TightDB's `AdaptiveStringColumn`, the column type that
stores a table's strings. It proves properties of that model.

- A column is a positionally indexed sequence of C strings.
- Its root node (`m_array`) has one of three representations:
  - a short-string leaf (`ArrayString`), which holds only values shorter than 16 bytes;
  - a long-string leaf (`ArrayStringLong`), which holds values of any length;
  - an inner B+-tree node, which holds child refs plus the cumulative row count of each child.
- The column may own a secondary `StringIndex`, which maps each value to the rows that hold it.
- Every write keeps that index up to date.

Files:

- `cstrings.dfy` holds `CString`, a string without NUL in which every char is one byte (a value up to 0xFF), so `strlen` is its length. `StrCmp` is the sign of `strcmp` on it. The module proves that `StrCmp` is a total order.
- `rows.dfy` holds positional insert and remove. It also defines `RowSet(rows, v)` and `Occurrences(rows, v, lo, hi)`, which describe the rows holding a value as a set and, in scan order, as a sequence. Beside them are lemmas on how insert, remove and update reshape these.
- `string_index.dfy` gives the index's observable contract. The index is a map from value to a set of rows, with the column's calls `Insert` (with the tail hint), `Set`, `Delete`, `Clear`, `count`, `find_first` and `find_all`. `Synced(ix, rows)` says the index records exactly the rows holding each value. Lemmas prove that each call, made with the argument the column passes, keeps it synced.
- `column_string.dfy` holds three classes:
  - `ArrayNode` is the node a handle refers to. Its kind is fixed.
  - `ArrayParent` has the child-ref slots.
  - `AdaptiveStringColumn` has a `root` handle and an `index` field.

  The methods follow the C++ functions branch by branch:
  - Promotion from a short leaf to a long leaf allocates a new node, copies the rows in order, repoints the parent slot and replaces the handle.
  - The index is told before the tree write in `Set` and `Delete`, and after it in `Insert`.
  - `FindKeyPos` is the same lower-bound binary search.
  - `AutoEnumerate` builds the key column and runs its two passes.

Refs are object identities. "The parent now refers to the new leaf" is stated as the parent's child slot holding the new `ArrayNode`.

The generic tree engine (`TreeSet`, `TreeInsert`, `TreeDelete`, `TreeFind`, `TreeFindAll`) lives outside this file. On an inner-node root its effect is stated on the subtree's rows and on the node's cumulative offsets:

- `OffsetsAfterInsert` adjusts the offsets for an insert.
- `OffsetsAfterDelete` adjusts them for a delete and drops a child that the delete empties.

Both keep the node's offsets strictly increasing and ending at the row count.

`Valid()` says two things:

- the root is well-formed for its kind;
- the parent slot, if any, refers to the root.

`IndexInSync()` is kept separate from `Valid()`. The column's public updates `Set`, `Insert` and `Delete` ensure `old(IndexInSync()) ==> IndexInSync()`; `Clear` and `CreateIndex` ensure `IndexInSync()` outright. The leaf and tree-engine operations do not touch the index and make no promise about it.

The methods without a `modifies` clause leave the column unchanged. These are `FindKeyPos`, `AutoEnumerate`, `Count`, `FindFirst`, `FindAll` and `Compare`.

`AutoEnumerate` succeeds exactly when the number of distinct values is at most `Size() / 2 + 1`. The reason is that the abort check (`keys.Size() > count / 2`) runs before each new key is inserted. A bound of `Size() / 2` would be off by one for that reason. `TooManyKeys` proves that the abort is justified.

## Model

| member | source | states |
|---|---|---|
| ColumnString.AdaptiveStringColumn.constructor | src/tightdb/column_string.cpp:28-31 | a new column is a fresh, empty short-string leaf without parent and without index |
| ColumnString.AdaptiveStringColumn.FromRef | src/tightdb/column_string.cpp:33-47 | a column over an existing node takes that node, whose own kind decides the representation, and has no index |
| ColumnString.AdaptiveStringColumn.UpdateRef | src/tightdb/column_string.cpp:71-88 | the root becomes the given inner node; a node root is re-pointed in place, a leaf root is replaced by a fresh node handle in the same parent slot, which now refers to it |
| ColumnString.AdaptiveStringColumn.CreateIndex | src/tightdb/column_string.cpp:96-111 | requires no index; inserting every row in row order with the tail hint yields an index in sync with the rows |
| ColumnString.AdaptiveStringColumn.SetIndexRef | src/tightdb/column_string.cpp:113-117 | requires no index; attaches the given index and leaves the rows alone |
| ColumnString.AdaptiveStringColumn.IsEmpty | src/tightdb/column_string.cpp:119-131 | on a well-formed root (node: empty offset list; leaf: no items) it is true exactly when Size() is 0 |
| ColumnString.AdaptiveStringColumn.Size | src/tightdb/column_string.cpp:133-146 | on a well-formed root, the last cumulative offset (0 when there is none) for a node, and the item count for a leaf, are both the number of rows |
| ColumnString.AdaptiveStringColumn.Clear | src/tightdb/column_string.cpp:148-166 | no rows remain; an inner-node root becomes a fresh empty short leaf in the same parent slot, a leaf keeps its handle and kind; an attached index is cleared and is in sync |
| ColumnString.AdaptiveStringColumn.Resize | src/tightdb/column_string.cpp:168-179 | on a leaf root only, keeps exactly the first ndx rows; the handle, its parent and its parent slot are unchanged |
| ColumnString.AdaptiveStringColumn.Set | src/tightdb/column_string.cpp:181-195 | requires ndx < Size(); row ndx becomes the value, other rows unchanged; the index is told with the row's old value before the write, so an in-sync index stays in sync; without promotion the handle is kept, with it the parent slot refers to the new leaf |
| ColumnString.AdaptiveStringColumn.Insert | src/tightdb/column_string.cpp:197-207 | requires ndx <= Size(); the value becomes row ndx and later rows move up; the index is told afterwards with isLast = (ndx + 1 == new size), so an in-sync index stays in sync |
| ColumnString.AdaptiveStringColumn.Fill | src/tightdb/column_string.cpp:209-224 | requires an empty column without index; leaves exactly count empty strings; the column stays in its parent slot and no slot of the parent changes |
| ColumnString.AdaptiveStringColumn.Delete | src/tightdb/column_string.cpp:226-241 | requires ndx < Size(); row ndx is removed and later rows move down; the index is told first with the old value and isLast, which is always false here, so an in-sync index stays in sync; the handle, its parent and its parent slot are unchanged |
| ColumnString.AdaptiveStringColumn.Count | src/tightdb/column_string.cpp:243-271 | with an index, the index's count; without one, the sum over the children's row ranges (node) or the leaf scan; either way, for an in-sync column, the number of rows holding the target |
| ColumnString.AdaptiveStringColumn.FindFirst | src/tightdb/column_string.cpp:273-281 | the index answers only the whole-column query (start 0, end size_t(-1)) with its least recorded row; any other query, or any query on an in-sync column, yields the first row of [start, end) holding the value, or none |
| ColumnString.AdaptiveStringColumn.FindAll | src/tightdb/column_string.cpp:284-292 | same delegation rule; the whole-column query with an index extends the result by the index's rows in ascending order; any other query, or any query on an in-sync column, extends it by exactly the ascending rows of [start, end) holding the value |
| ColumnString.AdaptiveStringColumn.Get | src/tightdb/column_string.cpp:106 | the tree engine's read used by CreateIndex, Set, Delete, FindKeyPos, AutoEnumerate and compare: row ndx of a well-formed column, for ndx < Size() |
| ColumnString.AdaptiveStringColumn.LeafGet | src/tightdb/column_string.cpp:294-302 | row ndx of a leaf root; a short leaf only ever yields a value shorter than 16 |
| ColumnString.AdaptiveStringColumn.LeafSet | src/tightdb/column_string.cpp:304-340 | row ndx becomes the value and no other row changes; a long leaf, or a short leaf given a value shorter than 16, is written in place under the same handle; otherwise the root is a fresh long leaf holding the old rows in order, the parent's slot refers to it and no other slot changes |
| ColumnString.AdaptiveStringColumn.LeafInsert | src/tightdb/column_string.cpp:342-379 | the value becomes row ndx, earlier rows unchanged, later rows shifted up; same promotion rule as LeafSet; a long leaf never becomes short |
| ColumnString.AdaptiveStringColumn.LeafFind | src/tightdb/column_string.cpp:381-388 | the first row of [start, end) of the leaf holding the value, or none; end size_t(-1) means the leaf's end |
| ColumnString.AdaptiveStringColumn.LeafFindAll | src/tightdb/column_string.cpp:390-396 | the result is extended by every row of [start, end) of the leaf holding the value, ascending, each plus add_offset |
| ColumnString.AdaptiveStringColumn.LeafDelete | src/tightdb/column_string.cpp:399-407 | removes row ndx of a leaf root, later rows shifted down; kind, handle, parent and parent slot kept |
| ColumnString.AdaptiveStringColumn.TreeSet | src/tightdb/column_string.cpp:194 | the tree engine's write: row ndx becomes the value; a node root keeps its handle and its offsets, a leaf root goes through LeafSet |
| ColumnString.AdaptiveStringColumn.TreeInsert | src/tightdb/column_string.cpp:201 | the tree engine's insert: positional insert on the rows; a node root's new offsets are OffsetsAfterInsert of its old ones, so only the owning child grows (InsertGrowsOwningChild); a leaf root via LeafInsert |
| ColumnString.AdaptiveStringColumn.TreeDelete | src/tightdb/column_string.cpp:240 | the tree engine's delete: positional remove on the rows; a node root's new offsets are OffsetsAfterDelete of its old ones, so only the owning child shrinks (DeleteShrinksOwningChild); a leaf root via LeafDelete; parent and parent slot unchanged |
| ColumnString.ChildOf | src/tightdb/column_string.cpp:201 | the child owning a row: every earlier child ends at or before the row, and the chosen one ends after it (or is the last child, for the end position) |
| ColumnString.DecrementFrom | src/tightdb/column_string.cpp:240 | child c loses exactly one row and every other child keeps its row count |
| ColumnString.InsertGrowsOwningChild | src/tightdb/column_string.cpp:201 | an insert into a node goes to the child whose row range holds the position (the last child at the end); that child gains exactly one row and every other child keeps its row count |
| ColumnString.DeleteShrinksOwningChild | src/tightdb/column_string.cpp:240 | a delete from a node goes to the child whose row range holds the row; that child loses one row and is dropped when that was its only row, all other children unchanged |
| ColumnString.OffsetsAfterInsert | src/tightdb/column_string.cpp:133-138 | after an insert the node's offsets are still strictly increasing, start above 0 and end at the new row count, which Size() reads |
| ColumnString.OffsetsAfterDelete | src/tightdb/column_string.cpp:133-138 | after a delete, with an emptied child dropped, the offsets still describe the node: strictly increasing, ending at the new row count, empty exactly when no rows remain |
| ColumnString.ScanCount | src/tightdb/column_string.cpp:263-268 | a leaf's count over a row range is the number of rows in it holding the target |
| ColumnString.ScanFirst | src/tightdb/column_string.cpp:280 | the linear search returns the first matching row of the range, or none |
| ColumnString.ScanAll | src/tightdb/column_string.cpp:291 | the linear search returns every matching row of the range, ascending, shifted by the offset |
| ColumnString.IndexFirstIsFirstMatch | src/tightdb/column_string.cpp:277-278 | the least row an in-sync index records for a value is the first row holding it, and an empty record means no row holds it |
| ColumnString.AdaptiveStringColumn.FindKeyPos | src/tightdb/column_string.cpp:409-435 | pos <= Size(); on a column sorted under strcmp, every row before pos sorts before the target, every row from pos on does not, and the result is true exactly when row pos exists and equals the target |
| ColumnString.BelowProbe | src/tightdb/column_string.cpp:424-426 | in a sorted column, a probe sorting before the target lets everything up to it be discarded |
| ColumnString.AboveProbe | src/tightdb/column_string.cpp:427-430 | in a sorted column, a probe not sorting before the target lets everything from it on be discarded |
| ColumnString.AdaptiveStringColumn.AutoEnumerate | src/tightdb/column_string.cpp:437-475 | succeeds exactly when the distinct values number at most Size() / 2 + 1; on success the keys are strictly ascending and are exactly the column's distinct values, and values has one entry per row with keys[values[i]] equal to row i |
| ColumnString.AdaptiveStringColumn.CollectKeys | src/tightdb/column_string.cpp:439-457 | the first pass yields a fresh key column, strictly ascending, holding exactly the distinct values, or aborts exactly when there are more than Size() / 2 + 1 of them |
| ColumnString.AdaptiveStringColumn.KeyPositions | src/tightdb/column_string.cpp:459-470 | the second pass finds every row's value among the keys (the asserted result always holds) and records its position |
| ColumnString.NewKey | src/tightdb/column_string.cpp:446-455 | a value the search does not find is absent from the keys, and inserting it at the reported position keeps the keys strictly ascending |
| ColumnString.KeyFound | src/tightdb/column_string.cpp:465-466 | a value present among strictly ascending keys sits exactly at its lower bound, so the search reports it found |
| ColumnString.TooManyKeys | src/tightdb/column_string.cpp:449-453 | a new key arriving while more than count / 2 keys are held means the column has more than count / 2 + 1 distinct values |
| ColumnString.AscendingIsDistinct | src/tightdb/column_string.cpp:446 | keys kept in strictly ascending order contain no duplicate |
| ColumnString.AdaptiveStringColumn.Compare | src/tightdb/column_string.cpp:477-487 | true exactly when both columns hold the same rows: equal sizes and every row equal under strcmp |
| CStrings.StrCmp | src/tightdb/column_string.cpp:424 | strcmp's sign on NUL-free strings: in -1..1, and 0 against the empty string only for the empty string |
| CStrings.StrCmpZero | src/tightdb/column_string.cpp:484 | strcmp is 0 exactly when the two strings are equal |
| CStrings.StrCmpFlip | src/tightdb/column_string.cpp:424-430 | swapping the operands negates strcmp |
| CStrings.StrCmpTrans | src/tightdb/column_string.cpp:424-430 | strcmp's order is transitive |
| CStrings.StrCmpLeTrans | src/tightdb/column_string.cpp:424-430 | "sorts at or before" is transitive, and strictly so when either step is strict |
| StringIndexes.StringIndex.Insert | src/tightdb/column_string.cpp:205 | a mid-column insert shifts every recorded row at or after the position up and records the new row for its value; the tail hint skips the shift |
| StringIndexes.StringIndex.Set | src/tightdb/column_string.cpp:191 | the row moves from the old value's record to the new value's record, and nothing else changes |
| StringIndexes.StringIndex.Delete | src/tightdb/column_string.cpp:237 | the row leaves the old value's record and later rows shift down unless the tail hint is given |
| StringIndexes.StringIndex.Clear | src/tightdb/column_string.cpp:165 | no value has any recorded row |
| StringIndexes.StringIndex.Count | src/tightdb/column_string.cpp:248 | the index's count for a value is 0 exactly when it records no row for the value; CountMatchesScan ties it to the rows |
| StringIndexes.StringIndex.FindFirst | src/tightdb/column_string.cpp:278 | none when no row is recorded for the value, else the least recorded row |
| StringIndexes.StringIndex.FindAll | src/tightdb/column_string.cpp:289 | the result is extended by the value's recorded rows in ascending order |
| StringIndexes.EmptySynced | src/tightdb/column_string.cpp:101 | a new index is in sync with an empty prefix of the rows |
| StringIndexes.ClearSynced | src/tightdb/column_string.cpp:164-165 | a cleared index is in sync with an emptied column |
| StringIndexes.InsertKeepsSync | src/tightdb/column_string.cpp:197-207 | told of an insert after the write, with the tail hint only at the end, an in-sync index stays in sync |
| StringIndexes.SetKeepsSync | src/tightdb/column_string.cpp:185-192 | told of a write with the row's pre-write value, an in-sync index stays in sync |
| StringIndexes.DeleteKeepsSync | src/tightdb/column_string.cpp:230-237 | told of a delete with the row's pre-delete value, an in-sync index stays in sync |
| StringIndexes.StaleLookupMisses | src/tightdb/column_string.cpp:186-188 | an in-sync index does not record a row under a value the row does not hold, so a lookup by the post-write value cannot find the row to update |
| StringIndexes.LateSetDesyncs | src/tightdb/column_string.cpp:186-188 | a concrete column in which reading the old value after the write leaves the index out of sync |
| StringIndexes.CountMatchesScan | src/tightdb/column_string.cpp:247-248 | an in-sync index's count equals the number of matching rows a scan finds |
| StringIndexes.RowsMatchScan | src/tightdb/column_string.cpp:288-289 | the ascending rows an in-sync index returns are exactly the scan's matches |
| Rows.InsertAt | src/tightdb/column_string.cpp:347-351 | positional insert: one longer, the value at the position, earlier items kept, later items shifted up |
| Rows.RemoveAt | src/tightdb/column_string.cpp:402-405 | positional remove: one shorter, earlier items kept, later items shifted down |
| Rows.Occurrences | src/tightdb/column_string.cpp:291 | the matching rows of a range, strictly ascending, each in the range and holding the value |
| Rows.OccurrencesSplit | src/tightdb/column_string.cpp:252-261 | matches over a range are the matches over its first part followed by those over its second, so child counts add up |
| Rows.OccurrencesAreRowSet | src/tightdb/column_string.cpp:247-248 | the scan's matches are exactly the rows holding the value, as many as there are |
| Rows.RowSetInsert | src/tightdb/column_string.cpp:201-205 | after an insert, each value's rows are its old rows shifted up at the position, plus the new row for the inserted value |
| Rows.RowSetRemove | src/tightdb/column_string.cpp:237-240 | after a remove, each value's rows are its old rows without the removed one, shifted down |
| Rows.RowSetUpdate | src/tightdb/column_string.cpp:191-194 | after a write, the row leaves its old record and joins the new value's record |
| Rows.DistinctCard | src/tightdb/column_string.cpp:450 | a duplicate-free key list has as many keys as distinct values |
| Rows.IncreasingUnique | src/tightdb/column_string.cpp:289 | two ascending row lists with the same rows are equal |

## Left out

- Allocator and ref plumbing (`Translate`, `get_coldef_from_ref`, `GetRef`, raw parent refs): a ref is the node object, and a node's kind is its header's column type.
- Memory management (`Destroy`, `delete`, the destructor, the old leaf's release after promotion): ownership bookkeeping with no effect on the rows.
- The `StringIndex` internals: the index is given by its observable contract, a map from value to recorded rows. Its back-pointer to the column and its getter callback are not modelled.
- The tree engine's node splitting, merging and recursion into child columns: an inner-node root carries its subtree's rows and its cumulative offsets, and the engine's effect is a positional update, insert or remove on them. Leaves have no capacity limit, so an insert never splits a full leaf and never calls UpdateRef to put a new inner-node handle at the root.
- ColumnString.AdaptiveStringColumn.Fill, ColumnString.AdaptiveStringColumn.Insert, ColumnString.AdaptiveStringColumn.TreeInsert: their `root == old(root)` clauses hold only because leaf splitting is not modelled; in the source an insert into a full leaf can give the column a new inner-node root handle.
- Clear on an inner-node root: the freshly created short leaf is assumed to take over the parent slot of the destroyed node, as the leaf promotion does explicitly.
- `Verify` and `LeafToDot`: debug-only diagnostics.
- ColumnString.AdaptiveStringColumn.FindFirst: not found (`size_t(-1)`) is `None`, and the result is an `Option` instead of a sentinel row number.
- ColumnString.AdaptiveStringColumn.FindAll: the result `Array` is a sequence of row numbers that the call extends.
- ColumnString.AdaptiveStringColumn.AutoEnumerate: the key and value columns are returned as sequences, not as refs to new arrays. The key column is built as a real column object.
- ColumnString.AdaptiveStringColumn.FindKeyPos: does not model the `int(Size())` narrowing, because sizes are assumed to fit in an `int`. The `size_t` sum in the probe is modelled as its mathematical value (low + high) / 2, which it equals whenever low + high is not negative, as it always is here.
- CStrings.StrCmp: compares bytes as unsigned values, with no locale-dependent collation. Strings hold no NUL, so truncation at an embedded NUL does not arise. A value is its byte sequence, one char per byte, so multi-byte encodings are seen as their bytes.
- Count and queries: the target and value pointers are never null, as the source asserts, and a `CString` cannot be null.
