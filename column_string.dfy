/**
 * AdaptiveStringColumn: a positionally indexed column of C strings whose
 * root is a short-string leaf (ArrayString, values shorter than 16 bytes),
 * a long-string leaf (ArrayStringLong, any length) or an inner node of the
 * column's B+-tree (child refs plus cumulative row counts), with an optional
 * secondary index kept in step with every Set, Insert and Delete.
 *
 * Refs are object identities: a parent's child slot holds the ArrayNode it
 * refers to, so "the parent now refers to the new leaf" is a statement about
 * that slot. The generic tree engine is external; on an inner-node root its
 * effect is stated on the subtree's rows and the node's offsets.
 */
module ColumnString {
  import opened Wrappers
  import opened CStrings
  import opened Rows
  import opened StringIndexes

  /** Values at least this long do not fit an ArrayString leaf. */
  const ShortLimit: nat := 16

  /** size_t(-1): as the `end` of a search, "to the end of the column". */
  const NPos: nat := 0xFFFF_FFFF_FFFF_FFFF

  /** The representation tag read from a node's header. */
  datatype Kind = ShortLeaf | LongLeaf | InnerNode

  /** The row where child c of an inner node starts. */
  function ChildStart(offsets: seq<nat>, c: nat): (r: nat)
    requires c <= |offsets|
  {
    if c == 0 then 0 else offsets[c - 1]
  }

  /**
   * Cumulative row counts of an inner node holding n rows: strictly
   * increasing (no child is empty), the last one is n, none when n is 0.
   */
  ghost predicate NodeOffsetsOk(offsets: seq<nat>, n: nat)
  {
    && (forall i, j | 0 <= i < j < |offsets| :: offsets[i] < offsets[j])
    && (offsets == [] ==> n == 0)
    && (offsets != [] ==> offsets[0] > 0 && offsets[|offsets| - 1] == n)
  }

  /** What the node a handle refers to must satisfy, per representation. */
  ghost predicate WellFormed(kind: Kind, items: seq<CString>, offsets: seq<nat>)
  {
    match kind
    case ShortLeaf => offsets == [] && forall k | 0 <= k < |items| :: |items[k]| < ShortLimit
    case LongLeaf => offsets == []
    case InnerNode => NodeOffsetsOk(offsets, |items|)
  }

  /** The child of an inner node that owns row ndx (the last child for the end position). */
  function ChildOf(offsets: seq<nat>, ndx: nat, from: nat): (c: nat)
    requires from < |offsets|
    ensures from <= c < |offsets|
    ensures c == |offsets| - 1 || ndx < offsets[c]
    ensures forall j | from <= j < c :: offsets[j] <= ndx
    decreases |offsets| - from
  {
    if from == |offsets| - 1 || ndx < offsets[from] then from else ChildOf(offsets, ndx, from + 1)
  }

  /** The node's offsets after the tree engine inserts row ndx into the owning child. */
  function OffsetsAfterInsert(offsets: seq<nat>, n: nat, ndx: nat): (r: seq<nat>)
    requires NodeOffsetsOk(offsets, n) && ndx <= n
    ensures NodeOffsetsOk(r, n + 1)
  {
    if offsets == [] then [1]
    else
      var c := ChildOf(offsets, ndx, 0);
      seq(|offsets|, j requires 0 <= j < |offsets| => if j < c then offsets[j] else offsets[j] + 1)
  }

  /**
   * The node's offsets after the tree engine deletes row ndx from the owning
   * child; a child left empty is dropped from the node.
   */
  function OffsetsAfterDelete(offsets: seq<nat>, n: nat, ndx: nat): (r: seq<nat>)
    requires NodeOffsetsOk(offsets, n) && ndx < n
    ensures NodeOffsetsOk(r, n - 1)
  {
    var c := ChildOf(offsets, ndx, 0);
    var dec := DecrementFrom(offsets, c);
    if ChildStart(dec, c) == dec[c] then
      DropEmptyChildOk(offsets, n, ndx, c, dec);
      dec[..c] + dec[c + 1..]
    else
      KeepChildOk(offsets, n, ndx, c, dec);
      dec
  }

  /**
   * An insert into an inner node goes to the child whose row range holds the
   * position (the last child for the end position); that child gains exactly
   * one row and every other child keeps its row count.
   */
  lemma InsertGrowsOwningChild(offsets: seq<nat>, n: nat, ndx: nat)
    requires NodeOffsetsOk(offsets, n) && ndx <= n && offsets != []
    ensures var c := ChildOf(offsets, ndx, 0);
            var r := OffsetsAfterInsert(offsets, n, ndx);
            && ChildStart(offsets, c) <= ndx <= offsets[c]
            && |r| == |offsets|
            && forall j | 0 <= j < |offsets| ::
                 r[j] - ChildStart(r, j) == offsets[j] - ChildStart(offsets, j) + (if j == c then 1 else 0)
  {
  }

  /**
   * A delete from an inner node goes to the child whose row range holds the
   * row; that child loses exactly one row, and is dropped from the node when
   * that was its only row.
   */
  lemma DeleteShrinksOwningChild(offsets: seq<nat>, n: nat, ndx: nat)
    requires NodeOffsetsOk(offsets, n) && ndx < n
    ensures var c := ChildOf(offsets, ndx, 0);
            var dec := DecrementFrom(offsets, c);
            var r := OffsetsAfterDelete(offsets, n, ndx);
            && ChildStart(offsets, c) <= ndx < offsets[c]
            && (offsets[c] - ChildStart(offsets, c) == 1 ==> r == dec[..c] + dec[c + 1..])
            && (offsets[c] - ChildStart(offsets, c) > 1 ==> r == dec)
  {
    var c := ChildOf(offsets, ndx, 0);
    var dec := DecrementFrom(offsets, c);
    var r := OffsetsAfterDelete(offsets, n, ndx);
    assert ChildStart(offsets, c) <= ndx < offsets[c];
    assert ChildStart(dec, c) == ChildStart(offsets, c) && dec[c] == offsets[c] - 1;
    if ChildStart(dec, c) == dec[c] {
      assert r == dec[..c] + dec[c + 1..];
    } else {
      assert r == dec;
    }
  }

  /** Every offset from child c on, one smaller. */
  function DecrementFrom(offsets: seq<nat>, c: nat): (r: seq<nat>)
    requires c < |offsets| && forall j | c <= j < |offsets| :: offsets[j] > 0
    ensures |r| == |offsets|
    ensures forall j | 0 <= j < |offsets| :: r[j] == if j < c then offsets[j] else offsets[j] - 1
    ensures forall j | 0 <= j < |offsets| ::
              r[j] - ChildStart(r, j) == offsets[j] - ChildStart(offsets, j) - (if j == c then 1 else 0)
  {
    seq(|offsets|, j requires 0 <= j < |offsets| => if j < c then offsets[j] else offsets[j] - 1)
  }

  lemma KeepChildOk(offsets: seq<nat>, n: nat, ndx: nat, c: nat, dec: seq<nat>)
    requires NodeOffsetsOk(offsets, n) && ndx < n && c < |offsets|
    requires ChildStart(offsets, c) <= ndx < offsets[c]
    requires |dec| == |offsets|
    requires forall j | 0 <= j < |offsets| :: dec[j] == if j < c then offsets[j] else offsets[j] - 1
    requires ChildStart(dec, c) < dec[c]
    ensures NodeOffsetsOk(dec, n - 1)
  {
    forall i, j | 0 <= i < j < |dec| ensures dec[i] < dec[j] {
      if i < c && c <= j {
        assert dec[i] <= ChildStart(dec, c);
        assert dec[c] <= dec[j];
      }
    }
  }

  lemma DropEmptyChildOk(offsets: seq<nat>, n: nat, ndx: nat, c: nat, dec: seq<nat>)
    requires NodeOffsetsOk(offsets, n) && ndx < n && c < |offsets|
    requires ChildStart(offsets, c) <= ndx < offsets[c]
    requires |dec| == |offsets|
    requires forall j | 0 <= j < |offsets| :: dec[j] == if j < c then offsets[j] else offsets[j] - 1
    requires ChildStart(dec, c) == dec[c]
    ensures NodeOffsetsOk(dec[..c] + dec[c + 1..], n - 1)
  {
    var r := dec[..c] + dec[c + 1..];
    assert |r| == |dec| - 1;
    forall k | 0 <= k < |r| ensures r[k] == if k < c then dec[k] else dec[k + 1] {
    }
    forall i, j | 0 <= i < j < |r| ensures r[i] < r[j] {
      if i < c && c <= j {
        assert dec[i] <= ChildStart(dec, c) == dec[c] < dec[j + 1];
      }
    }
    if r != [] {
      if c == 0 {
        assert dec[0] == 0 && r[0] == dec[1];
      }
      if c == |offsets| - 1 {
        assert r[|r| - 1] == dec[c - 1] == dec[c];
      }
    }
  }

  /** The end of a search range: NPos means the whole of n rows. */
  function EndOf(end: nat, n: nat): (r: nat)
  {
    if end == NPos then n else end
  }

  /** r is the first row in [lo, hi) holding v, or None when there is none. */
  ghost predicate IsFirstMatch(rows: seq<CString>, v: CString, lo: nat, hi: nat, r: Option<nat>)
    requires lo <= hi <= |rows|
  {
    match r
    case None => forall k | lo <= k < hi :: rows[k] != v
    case Some(k) => lo <= k < hi && rows[k] == v && forall j | lo <= j < k :: rows[j] != v
  }

  /** pos splits rows into those sorting before t and those sorting at or after it. */
  ghost predicate IsLowerBound(rows: seq<CString>, t: CString, pos: nat)
  {
    && pos <= |rows|
    && (forall k | 0 <= k < pos :: StrCmp(rows[k], t) < 0)
    && (forall k | pos <= k < |rows| :: StrCmp(rows[k], t) >= 0)
  }

  /** Row numbers of a leaf shifted by the leaf's first absolute row. */
  function Offset(s: seq<nat>, d: nat): (r: seq<nat>)
    ensures |r| == |s| && forall i | 0 <= i < |s| :: r[i] == s[i] + d
  {
    seq(|s|, i requires 0 <= i < |s| => s[i] + d)
  }

  lemma OffsetSnoc(s: seq<nat>, x: nat, d: nat)
    ensures Offset(s + [x], d) == Offset(s, d) + [x + d]
  {
    assert |Offset(s + [x], d)| == |Offset(s, d) + [x + d]|;
    forall i | 0 <= i <= |s| ensures Offset(s + [x], d)[i] == (Offset(s, d) + [x + d])[i] {
    }
  }

  /**
   * The least row an index records for v is the first row holding v, and no
   * row recorded means no row holds v.
   */
  lemma IndexFirstIsFirstMatch(rows: seq<CString>, v: CString, found: set<nat>, r: Option<nat>)
    requires found == RowSet(rows, v)
    requires r.None? <==> found == {}
    requires r.Some? ==> r.value in found && forall k | k in found :: r.value <= k
    ensures IsFirstMatch(rows, v, 0, |rows|, r)
  {
    match r
    case None =>
      forall k | 0 <= k < |rows| ensures rows[k] != v {
        assert rows[k] == v ==> k in RowSet(rows, v);
      }
    case Some(m) =>
      forall j | 0 <= j < m ensures rows[j] != v {
        assert rows[j] == v ==> j in RowSet(rows, v);
      }
  }

  /** Linear search of rows[lo..hi) for v. */
  method ScanFirst(rows: seq<CString>, v: CString, lo: nat, hi: nat) returns (r: Option<nat>)
    requires lo <= hi <= |rows|
    ensures IsFirstMatch(rows, v, lo, hi, r)
  {
    var i := lo;
    while i < hi
      invariant lo <= i <= hi
      invariant forall j | lo <= j < i :: rows[j] != v
    {
      if rows[i] == v {
        return Some(i);
      }
      i := i + 1;
    }
    return None;
  }

  /** Every row of rows[lo..hi) holding v, ascending, each shifted by addOffset. */
  method ScanAll(rows: seq<CString>, v: CString, lo: nat, hi: nat, addOffset: nat) returns (r: seq<nat>)
    requires lo <= hi <= |rows|
    ensures r == Offset(Occurrences(rows, v, lo, hi), addOffset)
  {
    r := [];
    for i := lo to hi
      invariant r == Offset(Occurrences(rows, v, lo, i), addOffset)
    {
      if rows[i] == v {
        assert Occurrences(rows, v, lo, i + 1) == Occurrences(rows, v, lo, i) + [i];
        OffsetSnoc(Occurrences(rows, v, lo, i), i, addOffset);
        r := r + [i + addOffset];
      }
    }
  }

  /** The number of rows of rows[lo..hi) holding v. */
  method ScanCount(rows: seq<CString>, v: CString, lo: nat, hi: nat) returns (c: nat)
    requires lo <= hi <= |rows|
    ensures c == |Occurrences(rows, v, lo, hi)|
  {
    c := 0;
    for i := lo to hi
      invariant c == |Occurrences(rows, v, lo, i)|
    {
      if rows[i] == v {
        c := c + 1;
      }
    }
  }

  /** n empty strings: what `fill` leaves behind. */
  function Blank(n: nat): (r: seq<CString>)
    ensures |r| == n && forall i | 0 <= i < n :: r[i] == ""
  {
    seq(n, _ => "")
  }

  /** An array that can hold child refs: a table's column list or an inner node. */
  class ArrayParent {
    var childRefs: seq<object>

    constructor (childRefs: seq<object>)
      ensures this.childRefs == childRefs
    {
      this.childRefs := childRefs;
    }
  }

  /**
   * The node a column handle (m_array) refers to. Its kind is fixed: a change
   * of representation allocates a new node.
   *   items   - a leaf's values; for an inner node, the rows of its subtree
   *   offsets - an inner node's cumulative row counts ([] for a leaf)
   *   parent, pndx - the slot of the parent that refers to this node
   */
  class ArrayNode {
    const kind: Kind
    var items: seq<CString>
    var offsets: seq<nat>
    var parent: ArrayParent?
    var pndx: nat

    constructor (kind: Kind, items: seq<CString>, offsets: seq<nat>, parent: ArrayParent?, pndx: nat)
      ensures this.kind == kind && this.items == items && this.offsets == offsets
      ensures this.parent == parent && this.pndx == pndx
    {
      this.kind := kind;
      this.items := items;
      this.offsets := offsets;
      this.parent := parent;
      this.pndx := pndx;
    }
  }

  /** The parent slot of node, if it has a parent, refers to node. */
  ghost predicate Linked(node: ArrayNode)
    reads node, node.parent
  {
    node.parent != null ==> node.pndx < |node.parent.childRefs| && node.parent.childRefs[node.pndx] == node
  }

  class AdaptiveStringColumn {
    var root: ArrayNode
    var index: Option<StringIndex>

    /** The column's rows. */
    ghost function Contents(): seq<CString>
      reads this, root
    {
      root.items
    }

    ghost predicate RootWellFormed()
      reads this, root
    {
      WellFormed(root.kind, root.items, root.offsets)
    }

    ghost predicate Valid()
      reads this, root, root.parent
    {
      RootWellFormed() && Linked(root)
    }

    /** An attached index records, for every value, exactly the rows holding it. */
    ghost predicate IndexInSync()
      reads this, root
    {
      index.Some? ==> Synced(index.value, root.items)
    }

    /** A new, empty column: an empty short-string leaf without parent or index. */
    constructor ()
      ensures Valid() && fresh(root) && root.kind == ShortLeaf && root.parent == null
      ensures Contents() == [] && index == None
    {
      root := new ArrayNode(ShortLeaf, [], [], null, 0);
      index := None;
    }

    /** A column over an existing node, whose header decides the representation. */
    constructor FromRef(node: ArrayNode)
      requires WellFormed(node.kind, node.items, node.offsets) && Linked(node)
      ensures Valid() && root == node && index == None
    {
      root := node;
      index := None;
    }

    function Size(): (n: nat)
      reads this, root
      ensures RootWellFormed() ==> n == |Contents()|
    {
      if root.kind == InnerNode then
        if root.offsets == [] then 0 else root.offsets[|root.offsets| - 1]
      else |root.items|
    }

    function IsEmpty(): (b: bool)
      reads this, root
      ensures RootWellFormed() ==> (b <==> Size() == 0)
    {
      if root.kind == InnerNode then root.offsets == [] else root.items == []
    }

    /** Row ndx, as the tree engine finds it. */
    function Get(ndx: nat): (v: CString)
      reads this, root
      requires RootWellFormed() && ndx < Size()
      ensures v == Contents()[ndx]
    {
      root.items[ndx]
    }

    /** Row ndx of a leaf root; a short leaf only ever yields a short value. */
    function LeafGet(ndx: nat): (v: CString)
      reads this, root
      requires root.kind != InnerNode && ndx < |root.items|
      ensures v == Contents()[ndx]
      ensures RootWellFormed() && root.kind == ShortLeaf ==> |v| < ShortLimit
    {
      root.items[ndx]
    }

    /**
     * Row ndx of a leaf root becomes value. A short leaf that receives a value
     * of 16 or more bytes is replaced by a new long leaf holding the same rows,
     * in the same parent slot.
     */
    method LeafSet(ndx: nat, value: CString)
      requires Valid() && root.kind != InnerNode && ndx < |root.items|
      modifies this, root, root.parent
      ensures Valid() && index == old(index) && root.kind != InnerNode
      ensures Contents() == old(Contents())[ndx := value]
      ensures old(root.kind) == LongLeaf || |value| < ShortLimit ==> root == old(root)
      ensures old(root.kind) == ShortLeaf && |value| >= ShortLimit ==> fresh(root) && root.kind == LongLeaf
      ensures root.parent == old(root.parent)
      ensures root.parent != null ==>
                root.pndx == old(root.pndx) && root.parent.childRefs == old(root.parent.childRefs)[root.pndx := root]
    {
      var len := |value|;
      if root.kind == LongLeaf {
        root.items := root.items[ndx := value];
        return;
      }
      if len < ShortLimit {
        root.items := root.items[ndx := value];
        return;
      }
      var oldarray := root;
      var newarray := new ArrayNode(LongLeaf, [], [], null, 0);
      for i := 0 to |oldarray.items|
        invariant newarray.items == oldarray.items[..i]
        invariant newarray.offsets == [] && newarray.parent == null
        modifies newarray
      {
        newarray.items := newarray.items + [oldarray.items[i]];
      }
      newarray.items := newarray.items[ndx := value];
      var parent := oldarray.parent;
      if parent != null {
        var pndx := oldarray.pndx;
        parent.childRefs := parent.childRefs[pndx := newarray];
        newarray.parent, newarray.pndx := parent, pndx;
      }
      root := newarray;
    }

    /**
     * value becomes row ndx of a leaf root, later rows moving up; promotion
     * to a long leaf as in LeafSet.
     */
    method LeafInsert(ndx: nat, value: CString)
      requires Valid() && root.kind != InnerNode && ndx <= |root.items|
      modifies this, root, root.parent
      ensures Valid() && index == old(index) && root.kind != InnerNode
      ensures Contents() == InsertAt(old(Contents()), ndx, value)
      ensures old(root.kind) == LongLeaf || |value| < ShortLimit ==> root == old(root)
      ensures old(root.kind) == ShortLeaf && |value| >= ShortLimit ==> fresh(root) && root.kind == LongLeaf
      ensures root.parent == old(root.parent)
      ensures root.parent != null ==>
                root.pndx == old(root.pndx) && root.parent.childRefs == old(root.parent.childRefs)[root.pndx := root]
    {
      var len := |value|;
      if root.kind == LongLeaf {
        root.items := InsertAt(root.items, ndx, value);
        return;
      }
      if len < ShortLimit {
        root.items := InsertAt(root.items, ndx, value);
        return;
      }
      var oldarray := root;
      var newarray := new ArrayNode(LongLeaf, [], [], null, 0);
      var n := |oldarray.items|;
      for i := 0 to n
        invariant newarray.items == oldarray.items[..i]
        invariant newarray.offsets == [] && newarray.parent == null
        modifies newarray
      {
        newarray.items := newarray.items + [oldarray.items[i]];
      }
      newarray.items := InsertAt(newarray.items, ndx, value);
      var parent := oldarray.parent;
      if parent != null {
        var pndx := oldarray.pndx;
        parent.childRefs := parent.childRefs[pndx := newarray];
        newarray.parent, newarray.pndx := parent, pndx;
      }
      root := newarray;
    }

    /** Row ndx of a leaf root is removed; the leaf keeps its representation. */
    method LeafDelete(ndx: nat)
      requires Valid() && root.kind != InnerNode && ndx < |root.items|
      modifies root
      ensures Valid() && Contents() == RemoveAt(old(Contents()), ndx)
      ensures root.parent == old(root.parent) && root.pndx == old(root.pndx)
    {
      root.items := RemoveAt(root.items, ndx);
    }

    /** First row of [start, end) of a leaf root that holds value. */
    method LeafFind(value: CString, start: nat, end: nat) returns (r: Option<nat>)
      requires Valid() && root.kind != InnerNode && start <= EndOf(end, |root.items|) <= |root.items|
      ensures IsFirstMatch(Contents(), value, start, EndOf(end, |Contents()|), r)
    {
      r := ScanFirst(root.items, value, start, EndOf(end, |root.items|));
    }

    /** result, then every row of [start, end) of a leaf root holding value, plus addOffset. */
    method LeafFindAll(result: seq<nat>, value: CString, addOffset: nat, start: nat, end: nat) returns (r: seq<nat>)
      requires Valid() && root.kind != InnerNode && start <= EndOf(end, |root.items|) <= |root.items|
      ensures r == result + Offset(Occurrences(Contents(), value, start, EndOf(end, |Contents()|)), addOffset)
    {
      var found := ScanAll(root.items, value, start, EndOf(end, |root.items|), addOffset);
      r := result + found;
    }

    /** A leaf root is cut down to its first ndx rows (used by the tree engine when splitting). */
    method Resize(ndx: nat)
      requires Valid() && root.kind != InnerNode && ndx <= |root.items|
      modifies root
      ensures Valid() && Contents() == old(Contents())[..ndx]
      ensures root.parent == old(root.parent) && root.pndx == old(root.pndx)
    {
      root.items := root.items[..ndx];
    }

    /** The tree engine's Set: on a leaf root LeafSet, on an inner node the owning leaf's row. */
    method TreeSet(ndx: nat, value: CString)
      requires Valid() && ndx < Size()
      modifies this, root, root.parent
      ensures Valid() && index == old(index)
      ensures Contents() == old(Contents())[ndx := value]
      ensures old(root.kind) == InnerNode ==> root.offsets == old(root.offsets)
      ensures root == old(root) || (fresh(root) && old(root.kind) == ShortLeaf && root.kind == LongLeaf)
      ensures old(root.kind) == LongLeaf || old(root.kind) == InnerNode || |value| < ShortLimit ==> root == old(root)
      ensures root.parent == old(root.parent)
      ensures root.parent != null ==>
                root.pndx == old(root.pndx) && root.parent.childRefs == old(root.parent.childRefs)[root.pndx := root]
    {
      if root.kind == InnerNode {
        root.items := root.items[ndx := value];
      } else {
        LeafSet(ndx, value);
      }
    }

    /** The tree engine's Insert (node splitting is not modelled). */
    method TreeInsert(ndx: nat, value: CString)
      requires Valid() && ndx <= Size()
      modifies this, root, root.parent
      ensures Valid() && index == old(index)
      ensures Contents() == InsertAt(old(Contents()), ndx, value)
      ensures old(root.kind) == InnerNode ==> root.offsets == OffsetsAfterInsert(old(root.offsets), |old(Contents())|, ndx)
      ensures root == old(root) || (fresh(root) && old(root.kind) == ShortLeaf && root.kind == LongLeaf)
      ensures old(root.kind) == LongLeaf || old(root.kind) == InnerNode || |value| < ShortLimit ==> root == old(root)
      ensures root.parent == old(root.parent)
      ensures root.parent != null ==>
                root.pndx == old(root.pndx) && root.parent.childRefs == old(root.parent.childRefs)[root.pndx := root]
    {
      if root.kind == InnerNode {
        root.offsets := OffsetsAfterInsert(root.offsets, |root.items|, ndx);
        root.items := InsertAt(root.items, ndx, value);
      } else {
        LeafInsert(ndx, value);
      }
    }

    /** The tree engine's Delete (node merging is not modelled). */
    method TreeDelete(ndx: nat)
      requires Valid() && ndx < Size()
      modifies root
      ensures Valid() && Contents() == RemoveAt(old(Contents()), ndx)
      ensures root.parent == old(root.parent) && root.pndx == old(root.pndx)
      ensures old(root.kind) == InnerNode ==> root.offsets == OffsetsAfterDelete(old(root.offsets), |old(Contents())|, ndx)
    {
      if root.kind == InnerNode {
        root.offsets := OffsetsAfterDelete(root.offsets, |root.items|, ndx);
        root.items := RemoveAt(root.items, ndx);
      } else {
        LeafDelete(ndx);
      }
    }

    /**
     * The column loses all rows. An inner-node root is replaced by a new empty
     * short leaf in the same parent slot; a leaf root is emptied in place.
     * An attached index is cleared too.
     */
    method Clear()
      requires Valid()
      modifies this, root, root.parent
      ensures Valid() && Contents() == [] && Size() == 0
      ensures old(root.kind) == InnerNode ==> fresh(root) && root.kind == ShortLeaf
      ensures old(root.kind) != InnerNode ==> root == old(root)
      ensures root.parent == old(root.parent)
      ensures root.parent != null ==>
                root.pndx == old(root.pndx) && root.parent.childRefs == old(root.parent.childRefs)[root.pndx := root]
      ensures index.Some? == old(index).Some? && IndexInSync()
    {
      if root.kind == InnerNode {
        var parent := root.parent;
        var pndx := root.pndx;
        var node := new ArrayNode(ShortLeaf, [], [], parent, pndx);
        if parent != null {
          parent.childRefs := parent.childRefs[pndx := node];
        }
        root := node;
      } else {
        root.items := [];
      }
      if index.Some? {
        ClearSynced(index.value);
        index := Some(index.value.Clear());
      }
    }

    /**
     * The root becomes the inner node (offsets, rows) the tree engine has just
     * built. A leaf root is replaced by a new node handle in the same parent
     * slot; an inner-node root handle is re-pointed in place.
     */
    method UpdateRef(offsets: seq<nat>, rows: seq<CString>)
      requires Valid() && NodeOffsetsOk(offsets, |rows|)
      modifies this, root, root.parent
      ensures Valid() && index == old(index)
      ensures root.kind == InnerNode && root.offsets == offsets && Contents() == rows
      ensures old(root.kind) == InnerNode ==> root == old(root)
      ensures old(root.kind) != InnerNode ==> fresh(root)
      ensures root.parent == old(root.parent)
      ensures root.parent != null ==>
                root.pndx == old(root.pndx) && root.parent.childRefs == old(root.parent.childRefs)[root.pndx := root]
    {
      if root.kind == InnerNode {
        root.offsets, root.items := offsets, rows;
      } else {
        var parent := root.parent;
        var pndx := root.pndx;
        var node := new ArrayNode(InnerNode, rows, offsets, parent, pndx);
        root := node;
        if parent != null {
          parent.childRefs := parent.childRefs[pndx := node];
        }
      }
    }

    /** An empty column without index receives count empty strings; "" never forces promotion. */
    method Fill(count: nat)
      requires Valid() && IsEmpty() && index.None?
      modifies this, root, root.parent
      ensures Valid() && root == old(root) && index == None && Contents() == Blank(count)
      ensures root.parent == old(root.parent)
      ensures root.parent != null ==> root.pndx == old(root.pndx) && root.parent.childRefs == old(root.parent.childRefs)
    {
      for i := 0 to count
        invariant Valid() && root == old(root) && root.parent == old(root.parent) && index == None
        invariant root.parent != null ==> root.pndx == old(root.pndx) && root.parent.childRefs == old(root.parent.childRefs)
        invariant Contents() == Blank(i)
      {
        TreeInsert(i, "");
        assert InsertAt(Blank(i), i, "") == Blank(i + 1);
      }
    }

    /** Row ndx becomes value; the index is told with the value the row held before the write. */
    method Set(ndx: nat, value: CString)
      requires Valid() && ndx < Size()
      modifies this, root, root.parent
      ensures Valid() && index.Some? == old(index).Some?
      ensures Contents() == old(Contents())[ndx := value]
      ensures old(IndexInSync()) ==> IndexInSync()
      ensures root == old(root) || (fresh(root) && old(root.kind) == ShortLeaf && root.kind == LongLeaf)
      ensures old(root.kind) == LongLeaf || old(root.kind) == InnerNode || |value| < ShortLimit ==> root == old(root)
      ensures root.parent == old(root.parent)
      ensures root.parent != null ==>
                root.pndx == old(root.pndx) && root.parent.childRefs == old(root.parent.childRefs)[root.pndx := root]
    {
      ghost var rows := Contents();
      ghost var wasSynced := IndexInSync();
      if index.Some? {
        var oldVal := Get(ndx);
        if wasSynced {
          SetKeepsSync(index.value, rows, ndx, value);
        }
        index := Some(index.value.Set(ndx, oldVal, value));
      }
      TreeSet(ndx, value);
    }

    /** value becomes row ndx; the index is told afterwards, with the tail hint. */
    method Insert(ndx: nat, value: CString)
      requires Valid() && ndx <= Size()
      modifies this, root, root.parent
      ensures Valid() && index.Some? == old(index).Some?
      ensures Contents() == InsertAt(old(Contents()), ndx, value)
      ensures old(IndexInSync()) ==> IndexInSync()
      ensures root == old(root) || (fresh(root) && old(root.kind) == ShortLeaf && root.kind == LongLeaf)
      ensures old(root.kind) == LongLeaf || old(root.kind) == InnerNode || |value| < ShortLimit ==> root == old(root)
      ensures root.parent == old(root.parent)
      ensures root.parent != null ==>
                root.pndx == old(root.pndx) && root.parent.childRefs == old(root.parent.childRefs)[root.pndx := root]
    {
      ghost var rows := Contents();
      ghost var wasSynced := IndexInSync();
      TreeInsert(ndx, value);
      if index.Some? {
        var isLast := ndx + 1 == Size();
        if wasSynced {
          InsertKeepsSync(index.value, rows, ndx, value, isLast);
        }
        index := Some(index.value.Insert(ndx, value, isLast));
      }
    }

    /** Row ndx is removed; the index is told first, with the value the row held. */
    method Delete(ndx: nat)
      requires Valid() && ndx < Size()
      modifies this, root
      ensures Valid() && root == old(root) && index.Some? == old(index).Some?
      ensures Contents() == RemoveAt(old(Contents()), ndx)
      ensures old(IndexInSync()) ==> IndexInSync()
      ensures root.parent == old(root.parent) && root.pndx == old(root.pndx)
    {
      ghost var rows := Contents();
      ghost var wasSynced := IndexInSync();
      if index.Some? {
        var oldVal := Get(ndx);
        var isLast := ndx == Size();
        assert !isLast;
        if wasSynced {
          DeleteKeepsSync(index.value, rows, ndx);
        }
        index := Some(index.value.Delete(ndx, oldVal, isLast));
      }
      TreeDelete(ndx);
    }

    /** Builds an index from scratch: every row in row order, each as the new tail. */
    method CreateIndex() returns (ix: StringIndex)
      requires Valid() && index.None?
      modifies this
      ensures Valid() && root == old(root) && index == Some(ix) && IndexInSync()
    {
      index := Some(StringIndex(map[]));
      EmptySynced();
      var count := Size();
      for i := 0 to count
        invariant root == old(root) && index.Some?
        invariant Synced(index.value, Contents()[..i])
      {
        var value := Get(i);
        InsertKeepsSync(index.value, Contents()[..i], i, value, true);
        assert InsertAt(Contents()[..i], i, value) == Contents()[..i + 1];
        index := Some(index.value.Insert(i, value, true));
      }
      assert Contents()[..count] == Contents();
      ix := index.value;
    }

    /** Attaches an index read back from storage instead of building one. */
    method SetIndexRef(ix: StringIndex)
      requires index.None?
      modifies this
      ensures root == old(root) && index == Some(ix)
    {
      index := Some(ix);
    }

    /** Number of rows holding target: from the index when there is one, else by scanning. */
    method Count(target: CString) returns (c: nat)
      requires Valid()
      ensures index.Some? ==> c == index.value.Count(target)
      ensures IndexInSync() ==> c == |Occurrences(Contents(), target, 0, Size())|
    {
      if index.Some? {
        if IndexInSync() {
          CountMatchesScan(index.value, root.items, target);
        }
        return index.value.Count(target);
      }
      c := 0;
      var rows := root.items;
      if root.kind == InnerNode {
        var offsets := root.offsets;
        for i := 0 to |offsets|
          invariant c == |Occurrences(rows, target, 0, ChildStart(offsets, i))|
        {
          var lo := ChildStart(offsets, i);
          var sub := ScanCount(rows, target, lo, offsets[i]);
          OccurrencesSplit(rows, target, 0, lo, offsets[i]);
          c := c + sub;
        }
      } else {
        c := ScanCount(rows, target, 0, |rows|);
      }
    }

    /**
     * First row of [start, end) holding value. Only a whole-column query
     * (start 0, end NPos) is answered by the index.
     */
    method FindFirst(value: CString, start: nat, end: nat) returns (r: Option<nat>)
      requires Valid() && start <= EndOf(end, Size()) <= Size()
      ensures index.Some? && start == 0 && end == NPos ==>
                && (r.None? <==> index.value.Lookup(value) == {})
                && (r.Some? ==> r.value in index.value.Lookup(value) && forall k | k in index.value.Lookup(value) :: r.value <= k)
      ensures IndexInSync() || !(index.Some? && start == 0 && end == NPos) ==> IsFirstMatch(Contents(), value, start, EndOf(end, Size()), r)
    {
      if index.Some? && start == 0 && end == NPos {
        r := index.value.FindFirst(value);
        if IndexInSync() {
          IndexFirstIsFirstMatch(root.items, value, index.value.Lookup(value), r);
        }
        return;
      }
      r := ScanFirst(root.items, value, start, EndOf(end, Size()));
    }

    /**
     * result, then every row of [start, end) holding value, ascending. Only a
     * whole-column query is answered by the index.
     */
    method FindAll(result: seq<nat>, value: CString, start: nat, end: nat) returns (r: seq<nat>)
      requires Valid() && start <= EndOf(end, Size()) <= Size()
      ensures index.Some? && start == 0 && end == NPos ==>
                && |result| <= |r| && r[..|result|] == result
                && Increasing(r[|result|..]) && Elements(r[|result|..]) == index.value.Lookup(value)
      ensures IndexInSync() || !(index.Some? && start == 0 && end == NPos) ==> r == result + Occurrences(Contents(), value, start, EndOf(end, Size()))
    {
      if index.Some? && start == 0 && end == NPos {
        r := index.value.FindAll(result, value);
        if IndexInSync() {
          RowsMatchScan(index.value, root.items, value, r[|result|..]);
          assert r == r[..|result|] + r[|result|..];
        }
        return;
      }
      var found := ScanAll(root.items, value, start, EndOf(end, Size()), 0);
      assert found == Occurrences(root.items, value, start, EndOf(end, Size()));
      r := result + found;
    }

    /**
     * Binary search for target in a column sorted under strcmp: pos is the
     * first row not sorting before target, found says whether it equals target.
     */
    method FindKeyPos(target: CString) returns (found: bool, pos: nat)
      requires Valid()
      ensures pos <= Size()
      ensures found ==> exists k | 0 <= k < Size() :: Contents()[k] == target
      ensures NonDecreasing(Contents()) ==>
                IsLowerBound(Contents(), target, pos) && (found <==> pos < Size() && Contents()[pos] == target)
    {
      ghost var rows := Contents();
      var len := Size();
      found := false;
      var low: int := -1;
      var high: int := len;
      while high - low > 1
        invariant -1 <= low < high <= len
        invariant NonDecreasing(rows) ==> forall k | 0 <= k <= low :: StrCmp(rows[k], target) < 0
        invariant NonDecreasing(rows) ==> forall k | high <= k < len :: StrCmp(rows[k], target) >= 0
        invariant !found ==> high == len || StrCmp(rows[high], target) > 0
        invariant found ==> high < len && exists k | 0 <= k < len :: rows[k] == target
        invariant found && NonDecreasing(rows) ==> rows[high] == target
        decreases high - low
      {
        // size_t(low) + size_t(high) wraps to high - 1 when low is -1, so the
        // shifted sum is (low + high) / 2, which lies strictly between low and high.
        var probe := (low + high) / 2;
        var v := Get(probe);
        var cmp := StrCmp(v, target);
        if cmp < 0 {
          if NonDecreasing(rows) {
            BelowProbe(rows, target, probe);
          }
          low := probe;
        } else {
          StrCmpZero(v, target);
          if NonDecreasing(rows) {
            AboveProbe(rows, target, probe);
            if found {
              StrCmpZero(rows[high], target);
            }
          }
          high := probe;
          if cmp == 0 {
            found := true;
          }
        }
      }
      pos := high;
      if !found && high < len {
        StrCmpZero(rows[high], target);
      }
    }

    /**
     * Dictionary-compression candidate: the sorted distinct values (keys) and,
     * per row, the position of its value among the keys. Gives up as soon as a
     * new key arrives while more than Size() / 2 keys are already collected.
     */
    method AutoEnumerate() returns (ok: bool, keys: seq<CString>, values: seq<nat>)
      requires Valid()
      ensures ok <==> |Elements(Contents())| <= Size() / 2 + 1
      ensures ok ==> StrictlyAscending(keys) && Elements(keys) == Elements(Contents())
      ensures ok ==> |values| == Size() && forall i | 0 <= i < |values| :: values[i] < |keys| && keys[values[i]] == Contents()[i]
    {
      var keyCol;
      ok, keyCol := CollectKeys();
      if !ok {
        return false, [], [];
      }
      values := KeyPositions(keyCol);
      keys := keyCol.root.items;
    }

    /** First pass of AutoEnumerate: a new column of the distinct values, in ascending order. */
    method CollectKeys() returns (ok: bool, keyCol: AdaptiveStringColumn)
      requires Valid()
      ensures fresh(keyCol) && keyCol.Valid()
      ensures ok <==> |Elements(Contents())| <= Size() / 2 + 1
      ensures ok ==> StrictlyAscending(keyCol.Contents()) && Elements(keyCol.Contents()) == Elements(Contents())
    {
      keyCol := new AdaptiveStringColumn();
      ghost var rows := Contents();
      var count := Size();
      for i := 0 to count
        invariant fresh(keyCol) && fresh(keyCol.root)
        invariant KeysOf(keyCol, rows[..i], count / 2 + 1)
      {
        var v := Get(i);
        var found, pos := keyCol.FindKeyPos(v);
        ghost var ks := keyCol.Contents();
        ElementsOfPrefix(rows, i);
        if !found {
          NewKey(ks, v, pos);
          if keyCol.Size() > count / 2 {
            TooManyKeys(rows, i, ks);
            return false, keyCol;
          }
          keyCol.Insert(pos, v);
          ElementsInsertAt(ks, pos, v);
        }
      }
      assert rows[..count] == rows;
      AscendingIsDistinct(keyCol.Contents());
      DistinctCard(keyCol.Contents());
      ok := true;
    }

    /**
     * keyCol is an unparented, index-free column holding the distinct values
     * of seen in strictly ascending order, at most bound of them.
     */
    static ghost predicate KeysOf(keyCol: AdaptiveStringColumn, seen: seq<CString>, bound: nat)
      reads keyCol, keyCol.root, keyCol.root.parent
    {
      && keyCol.Valid() && keyCol.root.parent == null && keyCol.index == None
      && StrictlyAscending(keyCol.Contents())
      && Elements(keyCol.Contents()) == Elements(seen)
      && |keyCol.Contents()| <= bound
    }

    /** Second pass of AutoEnumerate: for every row, where its value sits among the keys. */
    method KeyPositions(keyCol: AdaptiveStringColumn) returns (vals: seq<nat>)
      requires Valid() && keyCol.Valid()
      requires StrictlyAscending(keyCol.Contents()) && Elements(Contents()) <= Elements(keyCol.Contents())
      ensures |vals| == Size()
      ensures forall i | 0 <= i < |vals| :: vals[i] < keyCol.Size() && keyCol.Contents()[vals[i]] == Contents()[i]
    {
      ghost var ks := keyCol.Contents();
      vals := [];
      for i := 0 to Size()
        invariant |vals| == i && forall j | 0 <= j < i :: vals[j] < |ks| && ks[vals[j]] == Contents()[j]
      {
        var v := Get(i);
        var res, pos := keyCol.FindKeyPos(v);
        assert v in Elements(Contents());
        KeyFound(ks, v, pos);
        assert res;
        vals := vals + [pos];
      }
    }

    /** Whole-column equality: same size and every row equal under strcmp. */
    method Compare(c: AdaptiveStringColumn) returns (r: bool)
      requires Valid() && c.Valid()
      ensures r <==> Contents() == c.Contents()
    {
      var n := Size();
      if c.Size() != n {
        return false;
      }
      for i := 0 to n
        invariant Contents()[..i] == c.Contents()[..i]
      {
        var s1 := Get(i);
        var s2 := c.Get(i);
        StrCmpZero(s1, s2);
        if StrCmp(s1, s2) != 0 {
          return false;
        }
        assert Contents()[..i + 1] == Contents()[..i] + [s1];
        assert c.Contents()[..i + 1] == c.Contents()[..i] + [s2];
      }
      assert Contents() == Contents()[..n] && c.Contents() == c.Contents()[..n];
      return true;
    }
  }

  /** In a sorted column, everything up to a probe that sorts before t also sorts before t. */
  lemma BelowProbe(rows: seq<CString>, t: CString, probe: nat)
    requires NonDecreasing(rows) && probe < |rows| && StrCmp(rows[probe], t) < 0
    ensures forall k | 0 <= k <= probe :: StrCmp(rows[k], t) < 0
  {
    forall k | 0 <= k < probe ensures StrCmp(rows[k], t) < 0 {
      StrCmpLeTrans(rows[k], rows[probe], t);
    }
  }

  /** In a sorted column, everything from a probe that does not sort before t on does not either. */
  lemma AboveProbe(rows: seq<CString>, t: CString, probe: nat)
    requires NonDecreasing(rows) && probe < |rows| && StrCmp(rows[probe], t) >= 0
    ensures forall k | probe <= k < |rows| :: StrCmp(rows[k], t) >= 0
  {
    StrCmpFlip(rows[probe], t);
    forall k | probe < k < |rows| ensures StrCmp(rows[k], t) >= 0 {
      StrCmpLeTrans(t, rows[probe], rows[k]);
      StrCmpFlip(rows[k], t);
    }
  }

  /** Strictly ascending keys hold no value twice. */
  lemma AscendingIsDistinct(ks: seq<CString>)
    requires StrictlyAscending(ks)
    ensures Distinct(ks)
  {
    forall i, j | 0 <= i < j < |ks| ensures ks[i] != ks[j] {
      StrCmpZero(ks[i], ks[j]);
    }
  }

  /**
   * A value the binary search did not find is absent from the keys, and
   * inserting it at the reported position keeps the keys strictly ascending.
   */
  lemma NewKey(ks: seq<CString>, v: CString, pos: nat)
    requires StrictlyAscending(ks) && IsLowerBound(ks, v, pos) && !(pos < |ks| && ks[pos] == v)
    ensures v !in Elements(ks)
    ensures StrictlyAscending(InsertAt(ks, pos, v))
  {
    if pos < |ks| {
      StrCmpZero(ks[pos], v);
      StrCmpFlip(ks[pos], v);
    }
    forall k | 0 <= k < |ks| ensures ks[k] != v {
      StrCmpZero(ks[k], v);
      if k > pos {
        StrCmpLeTrans(v, ks[pos], ks[k]);
        StrCmpZero(v, ks[k]);
      }
    }
    var r := InsertAt(ks, pos, v);
    forall i, j | 0 <= i < j < |r| ensures StrCmp(r[i], r[j]) < 0 {
      if j == pos {
        assert r[i] == ks[i];
      } else if i == pos {
        assert r[j] == ks[j - 1];
        if j - 1 > pos {
          StrCmpLeTrans(v, ks[pos], ks[j - 1]);
        }
      } else if i < pos {
        assert r[i] == ks[i];
        if j < pos {
          assert r[j] == ks[j];
        } else {
          assert r[j] == ks[j - 1];
        }
      } else {
        assert r[i] == ks[i - 1] && r[j] == ks[j - 1];
      }
    }
  }

  /** A value present among strictly ascending keys is exactly at its lower bound. */
  lemma KeyFound(ks: seq<CString>, v: CString, pos: nat)
    requires StrictlyAscending(ks) && IsLowerBound(ks, v, pos) && v in Elements(ks)
    ensures pos < |ks| && ks[pos] == v
  {
    var j :| 0 <= j < |ks| && ks[j] == v;
    StrCmpZero(ks[j], v);
    assert j >= pos;
    StrCmpFlip(ks[pos], v);
  }

  /**
   * The abort in AutoEnumerate is justified: a new key arriving while more than
   * count / 2 keys are held means the whole column has more than count / 2 + 1
   * distinct values.
   */
  lemma TooManyKeys(rows: seq<CString>, i: nat, ks: seq<CString>)
    requires i < |rows| && StrictlyAscending(ks) && Elements(ks) == Elements(rows[..i])
    requires rows[i] !in Elements(ks) && |ks| > |rows| / 2
    ensures |Elements(rows)| > |rows| / 2 + 1
  {
    AscendingIsDistinct(ks);
    DistinctCard(ks);
    ElementsOfPrefix(rows, i);
    var seen := Elements(rows[..i + 1]);
    assert seen == Elements(ks) + {rows[i]};
    assert seen <= Elements(rows);
    assert |seen| == |ks| + 1;
    SubsetCard(seen, Elements(rows));
  }

  lemma ElementsOfPrefix<T>(s: seq<T>, i: nat)
    requires i < |s|
    ensures Elements(s[..i + 1]) == Elements(s[..i]) + {s[i]}
  {
    assert s[..i + 1] == s[..i] + [s[i]];
  }

  lemma ElementsInsertAt<T>(s: seq<T>, i: nat, x: T)
    requires i <= |s|
    ensures Elements(InsertAt(s, i, x)) == Elements(s) + {x}
  {
    var r := InsertAt(s, i, x);
    forall y | y in Elements(s) ensures y in Elements(r) {
      var k :| 0 <= k < |s| && s[k] == y;
      if k < i {
        assert r[k] == y;
      } else {
        assert r[k + 1] == y;
      }
    }
  }

  lemma SubsetCard<T>(a: set<T>, b: set<T>)
    requires a <= b
    ensures |a| <= |b|
  {
    assert b == a + (b - a);
  }
}
