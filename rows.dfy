/**
 * Row-level vocabulary shared by the column and its index: inserting and
 * removing a row, the set of rows holding a value, the ascending list of
 * matching rows a scan reports, and the renumbering of rows that an insert
 * or a delete causes.
 */
module Rows {
  import opened CStrings

  /** s with x inserted so that it becomes row i; later rows move up by one. */
  function InsertAt<T>(s: seq<T>, i: nat, x: T): (r: seq<T>)
    requires i <= |s|
    ensures |r| == |s| + 1 && r[i] == x
    ensures forall k | 0 <= k < i :: r[k] == s[k]
    ensures forall k | i < k < |r| :: r[k] == s[k - 1]
  {
    s[..i] + [x] + s[i..]
  }

  /** s without row i; later rows move down by one. */
  function RemoveAt<T>(s: seq<T>, i: nat): (r: seq<T>)
    requires i < |s|
    ensures |r| == |s| - 1
    ensures forall k | 0 <= k < i :: r[k] == s[k]
    ensures forall k | i <= k < |r| :: r[k] == s[k + 1]
  {
    s[..i] + s[i + 1..]
  }

  function Elements<T>(s: seq<T>): (r: set<T>)
  {
    set x | x in s
  }

  ghost predicate Distinct<T>(s: seq<T>)
  {
    forall i, j | 0 <= i < j < |s| :: s[i] != s[j]
  }

  ghost predicate Increasing(s: seq<nat>)
  {
    forall i, j | 0 <= i < j < |s| :: s[i] < s[j]
  }

  /** A duplicate-free sequence has as many distinct elements as it is long. */
  lemma {:induction false} DistinctCard<T>(s: seq<T>)
    requires Distinct(s)
    ensures |Elements(s)| == |s|
  {
    if s != [] {
      var t := s[..|s| - 1];
      DistinctCard(t);
      assert Elements(s) == Elements(t) + {s[|s| - 1]};
      assert s[|s| - 1] !in Elements(t);
    }
  }

  /** Two ascending row lists with the same rows are the same list. */
  lemma {:induction false} IncreasingUnique(a: seq<nat>, b: seq<nat>)
    requires Increasing(a) && Increasing(b) && Elements(a) == Elements(b)
    ensures a == b
  {
    if a != [] { assert a[0] in Elements(a); }
    if b != [] { assert b[0] in Elements(b); }
    if a != [] && b != [] {
      assert a[0] in Elements(b);
      assert b[0] in Elements(a);
      assert a[0] == b[0];
      assert Elements(a[1..]) == Elements(a) - {a[0]} by {
        assert a == [a[0]] + a[1..];
      }
      assert Elements(b[1..]) == Elements(b) - {b[0]} by {
        assert b == [b[0]] + b[1..];
      }
      IncreasingUnique(a[1..], b[1..]);
      assert a == [a[0]] + a[1..];
      assert b == [b[0]] + b[1..];
    }
  }

  /** The rows of `rows` that hold v. */
  function RowSet(rows: seq<CString>, v: CString): (r: set<nat>)
  {
    set k: nat | k < |rows| && rows[k] == v
  }

  /** The rows in [lo, hi) that hold v, in ascending order, one entry per row. */
  function Occurrences(rows: seq<CString>, v: CString, lo: nat, hi: nat): (r: seq<nat>)
    requires lo <= hi <= |rows|
    ensures Increasing(r)
    ensures forall k: nat :: k in r <==> lo <= k < hi && rows[k] == v
    ensures forall i | 0 <= i < |r| :: lo <= r[i] < hi
    decreases hi - lo
  {
    if lo == hi then []
    else
      var r := Occurrences(rows, v, lo, hi - 1);
      if rows[hi - 1] == v then r + [hi - 1] else r
  }

  /** Scanning [lo, hi) is scanning [lo, mid) and then [mid, hi). */
  lemma {:induction false} OccurrencesSplit(rows: seq<CString>, v: CString, lo: nat, mid: nat, hi: nat)
    requires lo <= mid <= hi <= |rows|
    ensures Occurrences(rows, v, lo, hi) == Occurrences(rows, v, lo, mid) + Occurrences(rows, v, mid, hi)
    decreases hi - mid
  {
    if mid < hi {
      OccurrencesSplit(rows, v, lo, mid, hi - 1);
      var front := Occurrences(rows, v, lo, mid);
      var tail := if rows[hi - 1] == v then [hi - 1] else [];
      var rest := Occurrences(rows, v, mid, hi - 1);
      assert Occurrences(rows, v, lo, hi - 1) == front + rest;
      assert Occurrences(rows, v, lo, hi) == Occurrences(rows, v, lo, hi - 1) + tail;
      assert Occurrences(rows, v, mid, hi) == rest + tail;
      assert (front + rest) + tail == front + (rest + tail);
    } else {
      assert Occurrences(rows, v, mid, hi) == [];
    }
  }

  /** A whole-column scan reports exactly RowSet, so its length is the row count of v. */
  lemma OccurrencesAreRowSet(rows: seq<CString>, v: CString)
    ensures Elements(Occurrences(rows, v, 0, |rows|)) == RowSet(rows, v)
    ensures |Occurrences(rows, v, 0, |rows|)| == |RowSet(rows, v)|
  {
    var occ := Occurrences(rows, v, 0, |rows|);
    assert Elements(occ) == RowSet(rows, v);
    DistinctCard(occ);
  }

  /** Row numbers after a row is inserted at `row`: rows at or after it move up. */
  function ShiftUp(s: set<nat>, row: nat): (r: set<nat>)
  {
    set k | k in s :: if k < row then k else k + 1
  }

  /** Row numbers after row `row` is deleted: it disappears, later rows move down. */
  function ShiftDown(s: set<nat>, row: nat): (r: set<nat>)
  {
    set k | k in s && k != row :: if k < row then k else k - 1
  }

  lemma RowSetInsert(rows: seq<CString>, i: nat, x: CString, v: CString)
    requires i <= |rows|
    ensures RowSet(InsertAt(rows, i, x), v) == ShiftUp(RowSet(rows, v), i) + (if v == x then {i} else {})
  {
    var r := InsertAt(rows, i, x);
    var lhs := RowSet(r, v);
    var rhs := ShiftUp(RowSet(rows, v), i) + (if v == x then {i} else {});
    forall k: nat | k in rhs ensures k in lhs {
      if k != i || v != x {
        var m :| m in RowSet(rows, v) && k == (if m < i then m else m + 1);
      }
    }
    forall k: nat | k in lhs ensures k in rhs {
      if k < i {
        assert k in RowSet(rows, v);
      } else if k > i {
        assert k - 1 in RowSet(rows, v);
      }
    }
  }

  lemma RowSetRemove(rows: seq<CString>, i: nat, v: CString)
    requires i < |rows|
    ensures RowSet(RemoveAt(rows, i), v) == ShiftDown(RowSet(rows, v), i)
  {
    var r := RemoveAt(rows, i);
    var lhs := RowSet(r, v);
    var rhs := ShiftDown(RowSet(rows, v), i);
    forall k: nat | k in rhs ensures k in lhs {
      var m :| m in RowSet(rows, v) && m != i && k == (if m < i then m else m - 1);
    }
    forall k: nat | k in lhs ensures k in rhs {
      if k < i {
        assert k in RowSet(rows, v);
      } else {
        assert k + 1 in RowSet(rows, v);
      }
    }
  }

  lemma RowSetUpdate(rows: seq<CString>, i: nat, x: CString, v: CString)
    requires i < |rows|
    ensures RowSet(rows[i := x], v) == RowSet(rows, v) - {i} + (if v == x then {i} else {})
  {
    var lhs := RowSet(rows[i := x], v);
    var rhs := RowSet(rows, v) - {i} + (if v == x then {i} else {});
    assert forall k: nat :: k in lhs <==> k in rhs;
  }
}
