/**
 * The column's secondary index, seen through the protocol the column uses:
 * for each value, the set of rows holding it. Its internal sorted structure
 * is not modelled; each operation is stated by its effect on that map.
 */
module StringIndexes {
  import opened Wrappers
  import opened CStrings
  import opened Rows

  datatype StringIndex = StringIndex(entries: map<CString, set<nat>>)
  {
    /** The rows the index records for v. */
    function Lookup(v: CString): (r: set<nat>)
    {
      if v in entries then entries[v] else {}
    }

    /**
     * A new row `row` holding `value`. Unless the caller says the row is the
     * new tail (isLast), rows at or after `row` are renumbered first.
     */
    function Insert(row: nat, value: CString, isLast: bool): (r: StringIndex)
      ensures forall v :: r.Lookup(v) ==
                          (if isLast then Lookup(v) else ShiftUp(Lookup(v), row)) + (if v == value then {row} else {})
    {
      var shifted := if isLast then entries else map v | v in entries :: ShiftUp(entries[v], row);
      StringIndex(shifted[value := (if value in shifted then shifted[value] else {}) + {row}])
    }

    /** Row `row` changes from oldValue to newValue; the entry is looked up by oldValue. */
    function Set(row: nat, oldValue: CString, newValue: CString): (r: StringIndex)
      ensures forall v :: r.Lookup(v) ==
                          if oldValue == newValue then Lookup(v)
                          else if v == oldValue then Lookup(v) - {row}
                          else if v == newValue then Lookup(v) + {row}
                          else Lookup(v)
    {
      if oldValue == newValue then this
      else
        var removed := entries[oldValue := Lookup(oldValue) - {row}];
        StringIndex(removed[newValue := Lookup(newValue) + {row}])
    }

    /**
     * Row `row`, found under oldValue, is removed; unless it was the tail
     * (isLast), later rows are renumbered down.
     */
    function Delete(row: nat, oldValue: CString, isLast: bool): (r: StringIndex)
      ensures forall v :: r.Lookup(v) ==
                          var s := if v == oldValue then Lookup(v) - {row} else Lookup(v);
                          if isLast then s else ShiftDown(s, row)
    {
      var removed := entries[oldValue := Lookup(oldValue) - {row}];
      if isLast then StringIndex(removed)
      else StringIndex(map v | v in removed :: ShiftDown(removed[v], row))
    }

    function Clear(): (r: StringIndex)
      ensures forall v :: r.Lookup(v) == {}
    {
      StringIndex(map[])
    }

    /** The number of rows holding v. */
    function Count(v: CString): (c: nat)
      ensures c == 0 <==> v !in entries || entries[v] == {}
    {
      |Lookup(v)|
    }

    /** The lowest row holding v, if any. */
    method FindFirst(v: CString) returns (r: Option<nat>)
      ensures r.None? <==> Lookup(v) == {}
      ensures r.Some? ==> r.value in Lookup(v) && forall k | k in Lookup(v) :: r.value <= k
    {
      var rows := Lookup(v);
      if rows == {} {
        return None;
      }
      var m := MinRow(rows);
      return Some(m);
    }

    /** `result` followed by every row holding v, ascending. */
    method FindAll(result: seq<nat>, v: CString) returns (r: seq<nat>)
      ensures |result| <= |r| && r[..|result|] == result
      ensures Increasing(r[|result|..]) && Elements(r[|result|..]) == Lookup(v)
    {
      var found := SortedRows(Lookup(v));
      r := result + found;
      assert r[..|result|] == result && r[|result|..] == found;
    }
  }

  /** The rows of s in ascending order. */
  method SortedRows(s: set<nat>) returns (found: seq<nat>)
    ensures Increasing(found) && Elements(found) == s
  {
    var rest := s;
    found := [];
    while rest != {}
      invariant Increasing(found)
      invariant Elements(found) + rest == s
      invariant forall i, k | 0 <= i < |found| && k in rest :: found[i] < k
      decreases |rest|
    {
      var m := MinRow(rest);
      SortedStep(s, found, rest, m);
      found := found + [m];
      rest := rest - {m};
    }
  }

  /** Moving the least remaining row to the end of the list keeps the list ascending and complete. */
  lemma SortedStep(s: set<nat>, found: seq<nat>, rest: set<nat>, m: nat)
    requires Increasing(found) && Elements(found) + rest == s
    requires forall i, k | 0 <= i < |found| && k in rest :: found[i] < k
    requires m in rest && forall k | k in rest :: m <= k
    ensures Increasing(found + [m]) && Elements(found + [m]) + (rest - {m}) == s
    ensures forall i, k | 0 <= i < |found + [m]| && k in rest - {m} :: (found + [m])[i] < k
  {
    assert Elements(found + [m]) == Elements(found) + {m};
  }

  /** The smallest element of a non-empty set of rows. */
  method MinRow(s: set<nat>) returns (m: nat)
    requires s != {}
    ensures m in s && forall k | k in s :: m <= k
  {
    m :| m in s;
    var rest := s - {m};
    while rest != {}
      invariant rest <= s && m in s
      invariant forall k | k in s - rest :: m <= k
      decreases |rest|
    {
      var x :| x in rest;
      assert s - (rest - {x}) == (s - rest) + {x};
      if x < m {
        m := x;
      }
      rest := rest - {x};
    }
    assert s - rest == s;
  }

  lemma ShiftDownIgnoresRow(s: set<nat>, row: nat)
    ensures ShiftDown(s - {row}, row) == ShiftDown(s, row)
  {
    forall k | k in ShiftDown(s, row) ensures k in ShiftDown(s - {row}, row) {
      var m :| m in s && m != row && k == (if m < row then m else m - 1);
      assert m in s - {row};
    }
  }

  /** The index agrees with the column: for every value, exactly the rows holding it. */
  ghost predicate Synced(ix: StringIndex, rows: seq<CString>)
  {
    forall v :: ix.Lookup(v) == RowSet(rows, v)
  }

  /** The empty index agrees with the empty column. */
  lemma EmptySynced()
    ensures Synced(StringIndex(map[]), [])
  {
    forall v ensures StringIndex(map[]).Lookup(v) == RowSet([], v) {
      assert RowSet([], v) == {};
    }
  }

  /** A cleared index agrees with an empty column. */
  lemma ClearSynced(ix: StringIndex)
    ensures Synced(ix.Clear(), [])
  {
    forall v ensures ix.Clear().Lookup(v) == RowSet([], v) {
      assert RowSet([], v) == {};
    }
  }

  /**
   * Inserting after the column's own insert keeps the index in step, provided
   * the tail hint is only given for a row appended at the end.
   */
  lemma InsertKeepsSync(ix: StringIndex, rows: seq<CString>, row: nat, value: CString, isLast: bool)
    requires Synced(ix, rows) && row <= |rows| && (isLast ==> row == |rows|)
    ensures Synced(ix.Insert(row, value, isLast), InsertAt(rows, row, value))
  {
    forall v ensures ix.Insert(row, value, isLast).Lookup(v) == RowSet(InsertAt(rows, row, value), v) {
      RowSetInsert(rows, row, value, v);
      if isLast {
        assert ShiftUp(RowSet(rows, v), row) == RowSet(rows, v);
      }
    }
  }

  /** Notifying a Set with the value the row held before the write keeps the index in step. */
  lemma SetKeepsSync(ix: StringIndex, rows: seq<CString>, row: nat, value: CString)
    requires Synced(ix, rows) && row < |rows|
    ensures Synced(ix.Set(row, rows[row], value), rows[row := value])
  {
    forall v ensures ix.Set(row, rows[row], value).Lookup(v) == RowSet(rows[row := value], v) {
      RowSetUpdate(rows, row, value, v);
      if rows[row] == value {
        assert rows[row := value] == rows;
      }
    }
  }

  /** Notifying a Delete with the value the row held before the removal keeps the index in step. */
  lemma DeleteKeepsSync(ix: StringIndex, rows: seq<CString>, row: nat)
    requires Synced(ix, rows) && row < |rows|
    ensures Synced(ix.Delete(row, rows[row], false), RemoveAt(rows, row))
  {
    forall v ensures ix.Delete(row, rows[row], false).Lookup(v) == RowSet(RemoveAt(rows, row), v) {
      RowSetRemove(rows, row, v);
      ShiftDownIgnoresRow(RowSet(rows, v), row);
      if v != rows[row] {
        assert row !in RowSet(rows, v);
        assert RowSet(rows, v) == RowSet(rows, v) - {row};
      }
    }
  }

  /**
   * Why the old value must be read before the write: once row `row` holds the
   * new value, the index has no entry for it under that value (unless nothing changed).
   */
  lemma StaleLookupMisses(ix: StringIndex, rows: seq<CString>, row: nat, value: CString)
    requires Synced(ix, rows) && row < |rows| && rows[row] != value
    ensures row !in ix.Lookup(value)
  {
    assert row !in RowSet(rows, value);
  }

  /** Notifying a Set only after the write, with the new value, leaves the index out of step. */
  lemma LateSetDesyncs()
    ensures var rows: seq<CString> := ["a"];
            var ix := StringIndex(map["a" := {0}]);
            Synced(ix, rows) && !Synced(ix.Set(0, "b", "b"), rows[0 := "b"])
  {
    var rows: seq<CString> := ["a"];
    var ix := StringIndex(map["a" := {0}]);
    forall v ensures ix.Lookup(v) == RowSet(rows, v) {
      if v == "a" {
        assert RowSet(rows, v) == {0};
      } else {
        assert RowSet(rows, v) == {};
      }
    }
    assert 0 in RowSet(rows[0 := "b"], "b");
    assert ix.Set(0, "b", "b").Lookup("b") == {};
  }

  /** With the index in step, its count is the number of matching rows a scan reports. */
  lemma CountMatchesScan(ix: StringIndex, rows: seq<CString>, v: CString)
    requires Synced(ix, rows)
    ensures ix.Count(v) == |Occurrences(rows, v, 0, |rows|)|
  {
    OccurrencesAreRowSet(rows, v);
  }

  /** With the index in step, its row list for v is exactly what a scan reports. */
  lemma RowsMatchScan(ix: StringIndex, rows: seq<CString>, v: CString, found: seq<nat>)
    requires Synced(ix, rows) && Increasing(found) && Elements(found) == ix.Lookup(v)
    ensures found == Occurrences(rows, v, 0, |rows|)
  {
    OccurrencesAreRowSet(rows, v);
    IncreasingUnique(found, Occurrences(rows, v, 0, |rows|));
  }
}
