/** Tables as sequences of rows, ordered by some of their columns: sort, search and merge. */
module Tables {

  /** Nulls sort last (`GDF_NULL_AS_LARGEST`). */
  datatype Value = Num(n: int) | Null

  type Row = seq<Value>
  type Table = seq<Row>
  type Key = seq<Value>

  predicate ValueLe(a: Value, b: Value) {
    b.Null? || (a.Num? && a.n <= b.n)
  }

  predicate KeyLe(a: Key, b: Key) {
    a == [] || (b != [] && if a[0] == b[0] then KeyLe(a[1..], b[1..]) else ValueLe(a[0], b[0]))
  }

  lemma {:induction false} KeyTotal(a: Key, b: Key)
    ensures KeyLe(a, b) || KeyLe(b, a)
  {
    if a != [] && b != [] { KeyTotal(a[1..], b[1..]); }
  }

  lemma {:induction false} KeyTransitive(a: Key, b: Key, c: Key)
    requires KeyLe(a, b) && KeyLe(b, c)
    ensures KeyLe(a, c)
  {
    if a != [] && a[0] == b[0] == c[0] { KeyTransitive(a[1..], b[1..], c[1..]); }
  }

  lemma {:induction false} KeyAntisymmetric(a: Key, b: Key)
    requires KeyLe(a, b) && KeyLe(b, a)
    ensures a == b
  {
    if a != [] {
      KeyAntisymmetric(a[1..], b[1..]);
      assert a == [a[0]] + a[1..] && b == [b[0]] + b[1..];
    }
  }

  /** The key of a row: its values in the given columns. The operations ask for columns the table has. */
  function KeyOf(row: Row, cols: seq<nat>): (key: Key)
    ensures |key| == |cols|
    ensures forall i :: 0 <= i < |cols| && cols[i] < |row| ==> key[i] == row[cols[i]]
  {
    seq(|cols|, i requires 0 <= i < |cols| => CellOf(row, cols[i]))
  }

  /** A cell of a row, null past its end. */
  function CellOf(row: Row, column: nat): Value {
    if column < |row| then row[column] else Null
  }

  predicate HasColumns(table: Table, cols: seq<nat>) {
    forall row, c :: row in table && c in cols ==> c < |row|
  }

  predicate RowLe(a: Row, b: Row, cols: seq<nat>) {
    KeyLe(KeyOf(a, cols), KeyOf(b, cols))
  }

  predicate Sorted(table: Table, cols: seq<nat>) {
    forall i, j :: 0 <= i < j < |table| ==> RowLe(table[i], table[j], cols)
  }

  /** What ascending order means, cell by cell: a number comes before a larger one, and before null. */
  predicate CellBefore(a: Value, b: Value) {
    a.Num? && (b.Null? || a.n < b.n)
  }

  /** The first columns, k of them, have the same cells. */
  ghost predicate SameUpTo(x: Row, y: Row, cols: seq<nat>, k: nat)
    requires k <= |cols|
  {
    forall m :: 0 <= m < k ==> CellOf(x, cols[m]) == CellOf(y, cols[m])
  }

  /** All key cells equal, or the first column in which they differ decides. */
  ghost predicate Ascends(x: Row, y: Row, cols: seq<nat>) {
    SameUpTo(x, y, cols, |cols|)
    || exists k :: 0 <= k < |cols| && SameUpTo(x, y, cols, k) && CellBefore(CellOf(x, cols[k]), CellOf(y, cols[k]))
  }

  ghost predicate RowsAscend(table: Table, cols: seq<nat>) {
    forall i, j :: 0 <= i < j < |table| ==> Ascends(table[i], table[j], cols)
  }

  /** The order of keys of one length is the order of the cells at the first position where they differ. */
  lemma {:induction false} KeyOrder(a: Key, b: Key)
    requires |a| == |b|
    ensures KeyLe(a, b) <==> a == b || exists k :: 0 <= k < |a| && CellBefore(a[k], b[k]) && a[..k] == b[..k]
  {
    if a != [] {
      KeyOrder(a[1..], b[1..]);
      assert a == [a[0]] + a[1..] && b == [b[0]] + b[1..];
      if a[0] == b[0] {
        forall k | 0 <= k < |a| - 1
          ensures a[1..][..k] == b[1..][..k] <==> a[..k + 1] == b[..k + 1]
        {
          assert a[..k + 1] == [a[0]] + a[1..][..k] && b[..k + 1] == [b[0]] + b[1..][..k];
          assert a[1..][..k] == a[..k + 1][1..] && b[1..][..k] == b[..k + 1][1..];
        }
      }
    }
  }

  /** Sorted by key is ascending by cells. */
  lemma SortedAscends(table: Table, cols: seq<nat>)
    ensures Sorted(table, cols) <==> RowsAscend(table, cols)
  {
    forall x: Row, y: Row
      ensures RowLe(x, y, cols) <==> Ascends(x, y, cols)
    {
      RowOrder(x, y, cols);
    }
  }

  lemma RowOrder(x: Row, y: Row, cols: seq<nat>)
    ensures RowLe(x, y, cols) <==> Ascends(x, y, cols)
  {
    KeyOrder(KeyOf(x, cols), KeyOf(y, cols));
  }

  /** Every row of a comes before every row of b. */
  predicate Before(a: Table, b: Table, cols: seq<nat>) {
    forall x, y :: x in a && y in b ==> RowLe(x, y, cols)
  }

  lemma SortedConcat(a: Table, b: Table, cols: seq<nat>)
    requires Sorted(a, cols) && Sorted(b, cols) && Before(a, b, cols)
    ensures Sorted(a + b, cols)
  {
    forall i, j | 0 <= i < j < |a + b|
      ensures RowLe((a + b)[i], (a + b)[j], cols)
    {
      if i < |a| <= j { assert a[i] in a && b[j - |a|] in b; }
    }
  }

  /** The position of the first row beyond the key (`cudf::upper_bound`). */
  method UpperBound(table: Table, cols: seq<nat>, key: Key) returns (at: nat)
    requires Sorted(table, cols)
    ensures at <= |table|
    ensures forall i :: 0 <= i < |table| ==> (i < at <==> KeyLe(KeyOf(table[i], cols), key))
  {
    var low, high := 0, |table|;
    while low < high
      invariant low <= high <= |table|
      invariant forall i :: 0 <= i < low ==> KeyLe(KeyOf(table[i], cols), key)
      invariant forall i :: high <= i < |table| ==> !KeyLe(KeyOf(table[i], cols), key)
    {
      var mid := (low + high) / 2;
      if KeyLe(KeyOf(table[mid], cols), key) {
        forall i | 0 <= i < mid
          ensures KeyLe(KeyOf(table[i], cols), key)
        {
          KeyTransitive(KeyOf(table[i], cols), KeyOf(table[mid], cols), key);
        }
        low := mid + 1;
      } else {
        forall i | mid <= i < |table|
          ensures !KeyLe(KeyOf(table[i], cols), key)
        {
          if KeyLe(KeyOf(table[i], cols), key) && mid < i {
            KeyTransitive(KeyOf(table[mid], cols), KeyOf(table[i], cols), key);
          }
        }
        high := mid;
      }
    }
    at := low;
  }

  /** A row put behind all the rows not beyond it. */
  method Insert(table: Table, row: Row, cols: seq<nat>) returns (out: Table)
    requires Sorted(table, cols)
    ensures Sorted(out, cols) && multiset(out) == multiset(table) + multiset{row}
  {
    var at := UpperBound(table, cols, KeyOf(row, cols));
    out := table[..at] + [row] + table[at..];
    forall i | at <= i < |table|
      ensures RowLe(row, table[i], cols)
    {
      KeyTotal(KeyOf(row, cols), KeyOf(table[i], cols));
    }
    assert table == table[..at] + table[at..];
  }

  /** `gdf_order_by` and the gather that follows it (`materialize_column`), as one step. */
  method Sort(table: Table, cols: seq<nat>) returns (sorted: Table)
    requires HasColumns(table, cols)
    ensures Sorted(sorted, cols) && multiset(sorted) == multiset(table)
    ensures RowsAscend(sorted, cols)
  {
    sorted := [];
    var i := 0;
    while i < |table|
      invariant i <= |table|
      invariant Sorted(sorted, cols) && multiset(sorted) == multiset(table[..i])
    {
      sorted := Insert(sorted, table[i], cols);
      assert table[..i + 1] == table[..i] + [table[i]];
      i := i + 1;
    }
    assert table[..|table|] == table;
    SortedAscends(sorted, cols);
  }

  /** Mid-merge: what is out is sorted and comes before what is left on either side. */
  ghost predicate Merging(out: Table, a: Table, b: Table, cols: seq<nat>) {
    Sorted(out, cols) && Sorted(a, cols) && Sorted(b, cols) && Before(out, a, cols) && Before(out, b, cols)
  }

  /** The first row of one side joins those that are out, if the other side has none before it. */
  lemma Take(out: Table, a: Table, b: Table, cols: seq<nat>)
    requires Merging(out, a, b, cols) && a != [] && (b == [] || RowLe(a[0], b[0], cols))
    ensures Merging(out + [a[0]], a[1..], b, cols)
  {
    assert a[0] in a;
    SortedConcat(out, [a[0]], cols);
    forall y | y in b
      ensures RowLe(a[0], y, cols)
    {
      var i :| 0 <= i < |b| && b[i] == y;
      if i > 0 { KeyTransitive(KeyOf(a[0], cols), KeyOf(b[0], cols), KeyOf(b[i], cols)); }
    }
  }

  /** Two sorted tables as one (`cudf::merge`). */
  method Merge(left: Table, right: Table, cols: seq<nat>) returns (out: Table)
    requires Sorted(left, cols) && Sorted(right, cols)
    ensures Sorted(out, cols) && multiset(out) == multiset(left) + multiset(right)
    ensures RowsAscend(out, cols)
  {
    out := [];
    var a, b := left, right;
    while a != [] || b != []
      invariant Merging(out, a, b, cols)
      invariant multiset(out) + multiset(a) + multiset(b) == multiset(left) + multiset(right)
      decreases |a| + |b|
    {
      if a != [] && b != [] { KeyTotal(KeyOf(a[0], cols), KeyOf(b[0], cols)); }
      if b == [] || (a != [] && KeyLe(KeyOf(a[0], cols), KeyOf(b[0], cols))) {
        Take(out, a, b, cols);
        assert a == [a[0]] + a[1..];
        out, a := out + [a[0]], a[1..];
      } else {
        Take(out, b, a, cols);
        assert b == [b[0]] + b[1..];
        out, b := out + [b[0]], b[1..];
      }
    }
    SortedAscends(out, cols);
  }
}
