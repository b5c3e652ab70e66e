/**
 * The comparator `sortTable` hands to `Array.prototype.sort`, and the stable
 * sort ECMAScript requires of that built-in, as a specification over rows.
 */
module Sorting {
  import opened Wrappers
  import opened Cells

  /** `row[col]`; None when the row is too short (JavaScript's undefined). */
  function Key(r: Row, col: nat): Option<Cell>
  {
    if col < |r| then Some(r[col]) else None
  }

  /**
   * The order standing in for JavaScript's `<` on two column values; undefined
   * is neither less nor greater than anything.
   */
  predicate KeyLess(a: Option<Cell>, b: Option<Cell>)
  {
    a.Some? && b.Some? && Less(a.value, b.value)
  }

  /**
   * The comparator of `sortTable`. `reverse` is None for undefined or any
   * non-boolean argument; only `Some(true)` sorts descending.
   */
  function Comparator(a: Row, b: Row, col: nat, reverse: Option<bool>): int
  {
    var x, y := Key(a, col), Key(b, col);
    if reverse == Some(true) then
      if KeyLess(x, y) then 1 else if KeyLess(y, x) then -1 else 0
    else
      if KeyLess(x, y) then -1 else if KeyLess(y, x) then 1 else 0
  }

  /** Every row has a value in column `col`. */
  ghost predicate HasColumn(s: seq<Row>, col: nat)
  {
    forall r :: r in s ==> col < |r|
  }

  /**
   * On rows that have the column, the comparator is antisymmetric, returns 0
   * exactly on equal values, and orders by `Less` in the chosen direction.
   */
  lemma ComparatorConsistent(a: Row, b: Row, col: nat, reverse: Option<bool>)
    requires col < |a| && col < |b|
    ensures Comparator(a, b, col, reverse) == -Comparator(b, a, col, reverse)
    ensures Comparator(a, b, col, reverse) == 0 <==> a[col] == b[col]
    ensures reverse == Some(true) ==> (Comparator(a, b, col, reverse) < 0 <==> Less(b[col], a[col]))
    ensures reverse != Some(true) ==> (Comparator(a, b, col, reverse) < 0 <==> Less(a[col], b[col]))
  {
    LessIsStrictTotalOrder(a[col], b[col], a[col]);
    LessIsStrictTotalOrder(b[col], a[col], b[col]);
  }

  lemma ComparatorTransitive(a: Row, b: Row, c: Row, col: nat, reverse: Option<bool>)
    requires col < |a| && col < |b| && col < |c|
    requires Comparator(a, b, col, reverse) <= 0 && Comparator(b, c, col, reverse) <= 0
    ensures Comparator(a, c, col, reverse) <= 0
  {
    LessIsStrictTotalOrder(a[col], b[col], c[col]);
    LessIsStrictTotalOrder(c[col], b[col], a[col]);
    LessIsStrictTotalOrder(a[col], c[col], b[col]);
    LessIsStrictTotalOrder(b[col], a[col], c[col]);
    LessIsStrictTotalOrder(c[col], a[col], b[col]);
    LessIsStrictTotalOrder(b[col], c[col], a[col]);
  }

  /** Puts `x` before the first row it does not compare greater than. */
  function Insert(x: Row, s: seq<Row>, col: nat, reverse: Option<bool>): seq<Row>
  {
    if s == [] || Comparator(x, s[0], col, reverse) <= 0 then [x] + s
    else [s[0]] + Insert(x, s[1..], col, reverse)
  }

  /** The rows in the order a stable sort with `Comparator` leaves them. */
  function Sort(s: seq<Row>, col: nat, reverse: Option<bool>): seq<Row>
  {
    if s == [] then [] else Insert(s[0], Sort(s[1..], col, reverse), col, reverse)
  }

  ghost predicate Sorted(s: seq<Row>, col: nat, reverse: Option<bool>)
  {
    forall i, j :: 0 <= i < j < |s| ==> Comparator(s[i], s[j], col, reverse) <= 0
  }

  /** The rows of `s` whose value in column `col` is `v`, in order. */
  function Matching(s: seq<Row>, col: nat, v: Cell): seq<Row>
  {
    if s == [] then []
    else (if Key(s[0], col) == Some(v) then [s[0]] else []) + Matching(s[1..], col, v)
  }

  lemma {:induction false} InsertPermutes(x: Row, s: seq<Row>, col: nat, reverse: Option<bool>)
    ensures multiset(Insert(x, s, col, reverse)) == multiset(s) + multiset{x}
  {
    if s != [] && Comparator(x, s[0], col, reverse) > 0 {
      InsertPermutes(x, s[1..], col, reverse);
      assert s == [s[0]] + s[1..];
    }
  }

  /** Sorting only reorders the rows. */
  lemma {:induction false} SortPermutes(s: seq<Row>, col: nat, reverse: Option<bool>)
    ensures multiset(Sort(s, col, reverse)) == multiset(s)
  {
    if s != [] {
      SortPermutes(s[1..], col, reverse);
      InsertPermutes(s[0], Sort(s[1..], col, reverse), col, reverse);
      assert s == [s[0]] + s[1..];
    }
  }

  /** A row no greater than the first of a sorted sequence can go in front of it. */
  lemma InsertFront(x: Row, s: seq<Row>, col: nat, reverse: Option<bool>)
    requires col < |x| && HasColumn(s, col) && Sorted(s, col, reverse)
    requires s == [] || Comparator(x, s[0], col, reverse) <= 0
    ensures Sorted([x] + s, col, reverse)
  {
    var r := [x] + s;
    forall i, j | 0 <= i < j < |r| ensures Comparator(r[i], r[j], col, reverse) <= 0 {
      if i == 0 && j > 1 {
        assert s[0] in s && s[j - 1] in s;
        ComparatorTransitive(x, s[0], s[j - 1], col, reverse);
      }
    }
  }

  /** A row no greater than every row of `s`, nor than `x`, is no greater than any row of `Insert(x, s)`. */
  lemma BelowInsert(y: Row, x: Row, s: seq<Row>, col: nat, reverse: Option<bool>)
    requires Comparator(y, x, col, reverse) <= 0
    requires forall k :: 0 <= k < |s| ==> Comparator(y, s[k], col, reverse) <= 0
    ensures forall j :: 0 <= j < |Insert(x, s, col, reverse)| ==> Comparator(y, Insert(x, s, col, reverse)[j], col, reverse) <= 0
  {
    var u := Insert(x, s, col, reverse);
    InsertPermutes(x, s, col, reverse);
    forall j | 0 <= j < |u| ensures Comparator(y, u[j], col, reverse) <= 0 {
      assert u[j] in multiset(u);
      if u[j] != x {
        assert u[j] in s;
      }
    }
  }

  lemma PrependSorted(y: Row, u: seq<Row>, col: nat, reverse: Option<bool>)
    requires Sorted(u, col, reverse)
    requires forall j :: 0 <= j < |u| ==> Comparator(y, u[j], col, reverse) <= 0
    ensures Sorted([y] + u, col, reverse)
  {
    var r := [y] + u;
    forall i, j | 0 <= i < j < |r| ensures Comparator(r[i], r[j], col, reverse) <= 0 {
      if i > 0 {
        assert r[i] == u[i - 1] && r[j] == u[j - 1];
      }
    }
  }

  lemma {:induction false} InsertSorted(x: Row, s: seq<Row>, col: nat, reverse: Option<bool>)
    requires col < |x| && HasColumn(s, col) && Sorted(s, col, reverse)
    ensures Sorted(Insert(x, s, col, reverse), col, reverse)
  {
    if s == [] || Comparator(x, s[0], col, reverse) <= 0 {
      InsertFront(x, s, col, reverse);
    } else {
      var t := s[1..];
      assert Sorted(t, col, reverse);
      InsertSorted(x, t, col, reverse);
      ComparatorConsistent(x, s[0], col, reverse);
      assert forall k :: 0 <= k < |t| ==> t[k] == s[k + 1];
      BelowInsert(s[0], x, t, col, reverse);
      PrependSorted(s[0], Insert(x, t, col, reverse), col, reverse);
    }
  }

  /** Each row compares less than or equal to every later row. */
  lemma {:induction false} SortSorted(s: seq<Row>, col: nat, reverse: Option<bool>)
    requires HasColumn(s, col)
    ensures Sorted(Sort(s, col, reverse), col, reverse)
  {
    if s != [] {
      SortSorted(s[1..], col, reverse);
      SortPermutes(s[1..], col, reverse);
      var t := Sort(s[1..], col, reverse);
      forall r | r in t ensures col < |r| {
        assert r in multiset(t);
      }
      InsertSorted(s[0], t, col, reverse);
    }
  }

  lemma {:induction false} MatchingAppend(a: seq<Row>, b: seq<Row>, col: nat, v: Cell)
    ensures Matching(a + b, col, v) == Matching(a, col, v) + Matching(b, col, v)
  {
    if a != [] {
      MatchingAppend(a[1..], b, col, v);
      assert (a + b)[0] == a[0] && (a + b)[1..] == a[1..] + b;
    } else {
      assert a + b == b;
    }
  }

  lemma MatchingSingle(x: Row, col: nat, v: Cell)
    ensures Matching([x], col, v) == if Key(x, col) == Some(v) then [x] else []
  {
    assert [x][0] == x && [x][1..] == [];
  }

  /** Moving a row past one with a different value does not change any `Matching` subsequence. */
  lemma SwapDistinct(x: Row, y: Row, t: seq<Row>, u: seq<Row>, col: nat, v: Cell)
    requires col < |x| && col < |y| && x[col] != y[col]
    requires Matching(u, col, v) == Matching([x] + t, col, v)
    ensures Matching([y] + u, col, v) == Matching([x] + ([y] + t), col, v)
  {
    MatchingSingle(x, col, v);
    MatchingSingle(y, col, v);
    var mx := Matching([x], col, v);
    var my := Matching([y], col, v);
    calc {
      Matching([y] + u, col, v);
      { MatchingAppend([y], u, col, v); }
      my + Matching(u, col, v);
      { MatchingAppend([x], t, col, v); }
      my + (mx + Matching(t, col, v));
      mx + (my + Matching(t, col, v));
      { MatchingAppend([y], t, col, v); }
      mx + Matching([y] + t, col, v);
      { MatchingAppend([x], [y] + t, col, v); }
      Matching([x] + ([y] + t), col, v);
    }
  }

  lemma {:induction false} InsertStable(x: Row, s: seq<Row>, col: nat, reverse: Option<bool>, v: Cell)
    requires col < |x| && HasColumn(s, col)
    ensures Matching(Insert(x, s, col, reverse), col, v) == Matching([x] + s, col, v)
  {
    if s != [] && Comparator(x, s[0], col, reverse) > 0 {
      var t := s[1..];
      InsertStable(x, t, col, reverse, v);
      assert x[col] != s[0][col] by {
        ComparatorConsistent(x, s[0], col, reverse);
      }
      SwapDistinct(x, s[0], t, Insert(x, t, col, reverse), col, v);
      assert [s[0]] + t == s;
    }
  }

  /** Rows with equal values in the sort column keep their relative order. */
  lemma {:induction false} SortStable(s: seq<Row>, col: nat, reverse: Option<bool>, v: Cell)
    requires HasColumn(s, col)
    ensures Matching(Sort(s, col, reverse), col, v) == Matching(s, col, v)
  {
    if s != [] {
      var t := Sort(s[1..], col, reverse);
      SortStable(s[1..], col, reverse, v);
      SortPermutes(s[1..], col, reverse);
      forall r | r in t ensures col < |r| {
        assert r in multiset(t);
      }
      InsertStable(s[0], t, col, reverse, v);
      MatchingAppend([s[0]], t, col, v);
      MatchingAppend([s[0]], s[1..], col, v);
      assert [s[0]] + s[1..] == s;
    }
  }

  /**
   * Every row has column `col`, and its values do not decrease down the rows
   * (do not increase when `reverse == Some(true)`).
   */
  ghost predicate OrderedBy(r: seq<Row>, col: nat, reverse: Option<bool>)
  {
    forall i, j :: 0 <= i < j < |r| ==>
      col < |r[i]| && col < |r[j]| &&
      if reverse == Some(true) then !Less(r[i][col], r[j][col]) else !Less(r[j][col], r[i][col])
  }

  /**
   * What sorting by column `col` promises when every row has that column:
   * a permutation, in non-decreasing order of the column (non-increasing when
   * `reverse == Some(true)`), stable on equal values.
   */
  lemma SortSpec(s: seq<Row>, col: nat, reverse: Option<bool>)
    requires HasColumn(s, col)
    ensures multiset(Sort(s, col, reverse)) == multiset(s)
    ensures OrderedBy(Sort(s, col, reverse), col, reverse)
    ensures forall v :: Matching(Sort(s, col, reverse), col, v) == Matching(s, col, v)
  {
    var r := Sort(s, col, reverse);
    SortPermutes(s, col, reverse);
    SortSorted(s, col, reverse);
    assert HasColumn(r, col) by {
      forall x | x in r ensures col < |x| {
        assert x in multiset(r);
      }
    }
    forall i, j | 0 <= i < j < |r|
      ensures if reverse == Some(true) then !Less(r[i][col], r[j][col]) else !Less(r[j][col], r[i][col])
    {
      assert r[i] in r && r[j] in r;
      ComparatorConsistent(r[i], r[j], col, reverse);
      LessIsStrictTotalOrder(r[i][col], r[j][col], r[i][col]);
    }
    forall v {
      SortStable(s, col, reverse, v);
    }
  }
}
