/**
 * The ordering `sort_list` applies to the rows' texts: Python's stable
 * `list.sort` (stable for `reverse=True` as well), keyed either by a
 * number obtained from a cell's conversion function or by the cell's
 * text in code-point order.
 */
module Sorting {
  import opened Wrappers

  /** A sort key: a converted number, or a raw text. */
  datatype SortValue = Num(x: real) | Str(s: string)

  /** Python's comparison of strings: code point by code point, a proper
      prefix first. */
  predicate LexLess(a: string, b: string)
    decreases |a|
  {
    if a == [] then b != []
    else if b == [] then false
    else a[0] < b[0] || (a[0] == b[0] && LexLess(a[1..], b[1..]))
  }

  lemma {:induction false} LexLessIrreflexive(a: string)
    ensures !LexLess(a, a)
    decreases |a|
  {
    if a != [] {
      LexLessIrreflexive(a[1..]);
    }
  }

  lemma {:induction false} LexLessTransitive(a: string, b: string, c: string)
    requires LexLess(a, b) && LexLess(b, c)
    ensures LexLess(a, c)
    decreases |a|
  {
    if a != [] && a[0] == b[0] && b[0] == c[0] {
      LexLessTransitive(a[1..], b[1..], c[1..]);
    }
  }

  lemma {:induction false} LexLessTotal(a: string, b: string)
    ensures a == b || LexLess(a, b) || LexLess(b, a)
    decreases |a|
  {
    if a != [] && b != [] && a[0] == b[0] {
      LexLessTotal(a[1..], b[1..]);
      if a[1..] == b[1..] {
        assert a == [a[0]] + a[1..] && b == [b[0]] + b[1..];
      }
    }
  }

  /** The order on keys (numbers never meet texts in one sort; they are
      put first only to make the order total). */
  predicate Less(a: SortValue, b: SortValue)
  {
    match (a, b)
    case (Num(x), Num(y)) => x < y
    case (Str(s), Str(t)) => LexLess(s, t)
    case (Num(_), Str(_)) => true
    case (Str(_), Num(_)) => false
  }

  /** Whether key `a` goes strictly before key `b`, ascending or (`rev`) descending. */
  predicate Before(a: SortValue, b: SortValue, rev: bool)
  {
    if rev then Less(b, a) else Less(a, b)
  }

  /** `Before` is a strict total order on keys, in both directions. */
  lemma BeforeIsStrictTotalOrder(a: SortValue, b: SortValue, c: SortValue, rev: bool)
    ensures !Before(a, a, rev)
    ensures Before(a, b, rev) && Before(b, c, rev) ==> Before(a, c, rev)
    ensures a == b || Before(a, b, rev) || Before(b, a, rev)
  {
    if a.Str? {
      LexLessIrreflexive(a.s);
    }
    if a.Str? && b.Str? && c.Str? {
      if LexLess(a.s, b.s) && LexLess(b.s, c.s) {
        LexLessTransitive(a.s, b.s, c.s);
      }
      if LexLess(c.s, b.s) && LexLess(b.s, a.s) {
        LexLessTransitive(c.s, b.s, a.s);
      }
    }
    if a.Str? && b.Str? {
      LexLessTotal(a.s, b.s);
    }
  }

  /** No element goes strictly before an earlier one. */
  ghost predicate SortedBy<T>(s: seq<T>, key: T -> SortValue, rev: bool)
  {
    forall i, j :: 0 <= i < j < |s| ==> !Before(key(s[j]), key(s[i]), rev)
  }

  /** The elements of `s` whose key is `k`, in their order in `s`. */
  function WithKey<T>(s: seq<T>, key: T -> SortValue, k: SortValue): seq<T>
  {
    if s == [] then []
    else (if key(s[0]) == k then [s[0]] else []) + WithKey(s[1..], key, k)
  }

  /** Places `x` after every element that does not go strictly after it. */
  function Insert<T>(x: T, s: seq<T>, key: T -> SortValue, rev: bool): seq<T>
  {
    if s == [] then [x]
    else if Before(key(x), key(s[0]), rev) then [x] + s
    else [s[0]] + Insert(x, s[1..], key, rev)
  }

  /** A stable sort: each element in turn is inserted after its equals. */
  function StableSort<T>(s: seq<T>, key: T -> SortValue, rev: bool): seq<T>
  {
    if s == [] then [] else Insert(s[|s| - 1], StableSort(s[..|s| - 1], key, rev), key, rev)
  }

  lemma {:induction false} WithKeyAppend<T>(a: seq<T>, b: seq<T>, key: T -> SortValue, k: SortValue)
    ensures WithKey(a + b, key, k) == WithKey(a, key, k) + WithKey(b, key, k)
  {
    if a == [] {
      assert a + b == b;
    } else {
      assert (a + b)[1..] == a[1..] + b;
      WithKeyAppend(a[1..], b, key, k);
    }
  }

  lemma {:induction false} InsertMultiset<T>(x: T, s: seq<T>, key: T -> SortValue, rev: bool)
    ensures multiset(Insert(x, s, key, rev)) == multiset(s) + multiset{x}
  {
    if s != [] && !Before(key(x), key(s[0]), rev) {
      InsertMultiset(x, s[1..], key, rev);
      assert s == [s[0]] + s[1..];
    }
  }

  /** In a sorted sequence, a key that goes strictly before the first key is
      absent, and so is every key before it. */
  lemma SortedAfterHead<T>(s: seq<T>, key: T -> SortValue, rev: bool, a: SortValue, i: nat)
    requires SortedBy(s, key, rev) && s != [] && i < |s|
    requires Before(a, key(s[0]), rev)
    ensures Before(a, key(s[i]), rev)
  {
    BeforeIsStrictTotalOrder(a, key(s[0]), key(s[i]), rev);
    BeforeIsStrictTotalOrder(key(s[0]), key(s[i]), a, rev);
  }

  lemma {:induction false} InsertSorted<T>(x: T, s: seq<T>, key: T -> SortValue, rev: bool)
    requires SortedBy(s, key, rev)
    ensures SortedBy(Insert(x, s, key, rev), key, rev)
  {
    if s == [] {
    } else if Before(key(x), key(s[0]), rev) {
      InsertFrontSorted(x, s, key, rev);
    } else {
      assert SortedBy(s[1..], key, rev);
      InsertSorted(x, s[1..], key, rev);
      InsertLaterSorted(x, s, key, rev);
    }
  }

  /** Putting before a sorted sequence a key that goes before its first one. */
  lemma InsertFrontSorted<T>(x: T, s: seq<T>, key: T -> SortValue, rev: bool)
    requires SortedBy(s, key, rev) && s != [] && Before(key(x), key(s[0]), rev)
    ensures SortedBy([x] + s, key, rev)
  {
    var r := [x] + s;
    forall i, j | 0 <= i < j < |r| ensures !Before(key(r[j]), key(r[i]), rev) {
      if i == 0 {
        SortedAfterHead(s, key, rev, key(x), j - 1);
        BeforeIsStrictTotalOrder(key(x), key(s[j - 1]), key(x), rev);
      }
    }
  }

  /** Keeping the head of a sorted sequence first when `x` does not go before it. */
  lemma InsertLaterSorted<T>(x: T, s: seq<T>, key: T -> SortValue, rev: bool)
    requires SortedBy(s, key, rev) && s != [] && !Before(key(x), key(s[0]), rev)
    requires SortedBy(Insert(x, s[1..], key, rev), key, rev)
    ensures SortedBy([s[0]] + Insert(x, s[1..], key, rev), key, rev)
  {
    var t := s[1..];
    InsertMultiset(x, t, key, rev);
    var it := Insert(x, t, key, rev);
    var r := [s[0]] + it;
    forall i, j | 0 <= i < j < |r| ensures !Before(key(r[j]), key(r[i]), rev) {
      if i == 0 {
        assert r[j] == it[j - 1];
        assert r[j] in multiset(t) + multiset{x} by {
          assert r[j] in multiset(it);
        }
        if r[j] == x {
          BeforeIsStrictTotalOrder(key(x), key(s[0]), key(x), rev);
        } else {
          assert r[j] in t;
          var m :| 0 <= m < |t| && t[m] == r[j];
          assert s[m + 1] == r[j];
        }
      } else {
        assert r[i] == it[i - 1] && r[j] == it[j - 1];
      }
    }
  }

  /** The first element's contribution to `WithKey`. */
  lemma WithKeyCons<T>(x: T, s: seq<T>, key: T -> SortValue, k: SortValue)
    ensures WithKey([x] + s, key, k) == (if key(x) == k then [x] else []) + WithKey(s, key, k)
  {
    assert ([x] + s)[1..] == s;
  }

  /** Inserting `x` into a sorted sequence puts it after every element of its key. */
  lemma {:induction false} InsertWithKey<T>(x: T, s: seq<T>, key: T -> SortValue, rev: bool, k: SortValue)
    requires SortedBy(s, key, rev)
    ensures WithKey(Insert(x, s, key, rev), key, k)
         == WithKey(s, key, k) + (if key(x) == k then [x] else [])
  {
    var xk: seq<T> := if key(x) == k then [x] else [];
    if s == [] {
      WithKeyCons(x, [], key, k);
      assert [x] + [] == [x];
    } else if Before(key(x), key(s[0]), rev) {
      WithKeyCons(x, s, key, k);
      if key(x) == k {
        SortedHeadExcludes(s, key, rev, k);
      }
    } else {
      var t := s[1..];
      assert SortedBy(t, key, rev);
      InsertWithKey(x, t, key, rev, k);
      var s0k: seq<T> := if key(s[0]) == k then [s[0]] else [];
      WithKeyCons(s[0], Insert(x, t, key, rev), key, k);
      WithKeyCons(s[0], t, key, k);
      assert s == [s[0]] + t;
      calc {
        WithKey(Insert(x, s, key, rev), key, k);
        WithKey([s[0]] + Insert(x, t, key, rev), key, k);
        s0k + WithKey(Insert(x, t, key, rev), key, k);
        s0k + (WithKey(t, key, k) + xk);
        (s0k + WithKey(t, key, k)) + xk;
        WithKey(s, key, k) + xk;
      }
    }
  }

  /** A key that goes strictly before the first key of a sorted sequence
      occurs nowhere in it. */
  lemma SortedHeadExcludes<T>(s: seq<T>, key: T -> SortValue, rev: bool, a: SortValue)
    requires SortedBy(s, key, rev) && s != []
    requires Before(a, key(s[0]), rev)
    ensures WithKey(s, key, a) == []
  {
    forall i | 0 <= i < |s| ensures key(s[i]) != a {
      SortedAfterHead(s, key, rev, a, i);
      BeforeIsStrictTotalOrder(a, a, a, rev);
    }
    NoneWithKey(s, key, a);
  }

  lemma {:induction false} NoneWithKey<T>(s: seq<T>, key: T -> SortValue, k: SortValue)
    requires forall i :: 0 <= i < |s| ==> key(s[i]) != k
    ensures WithKey(s, key, k) == []
  {
    if s != [] {
      NoneWithKey(s[1..], key, k);
    }
  }

  /** `StableSort` permutes its input. */
  lemma {:induction false} StableSortPermutes<T>(s: seq<T>, key: T -> SortValue, rev: bool)
    ensures multiset(StableSort(s, key, rev)) == multiset(s)
  {
    if s != [] {
      var init := s[..|s| - 1];
      StableSortPermutes(init, key, rev);
      InsertMultiset(s[|s| - 1], StableSort(init, key, rev), key, rev);
      assert s == init + [s[|s| - 1]];
    }
  }

  /** `StableSort` orders its output by key. */
  lemma {:induction false} StableSortSorts<T>(s: seq<T>, key: T -> SortValue, rev: bool)
    ensures SortedBy(StableSort(s, key, rev), key, rev)
  {
    if s != [] {
      StableSortSorts(s[..|s| - 1], key, rev);
      InsertSorted(s[|s| - 1], StableSort(s[..|s| - 1], key, rev), key, rev);
    }
  }

  /** `StableSort` keeps the elements of each key in their original order. */
  lemma {:induction false} StableSortIsStable<T>(s: seq<T>, key: T -> SortValue, rev: bool, k: SortValue)
    ensures WithKey(StableSort(s, key, rev), key, k) == WithKey(s, key, k)
  {
    if s != [] {
      var init, x := s[..|s| - 1], s[|s| - 1];
      StableSortIsStable(init, key, rev, k);
      StableSortSorts(init, key, rev);
      InsertWithKey(x, StableSort(init, key, rev), key, rev, k);
      assert s == init + [x];
      WithKeyAppend(init, [x], key, k);
      assert WithKey([x], key, k) == (if key(x) == k then [x] else []) + WithKey([x][1..], key, k);
    }
  }

  /** Every row has a cell in column `col`. */
  predicate HaveColumn(rows: seq<seq<string>>, col: nat)
  {
    forall r :: 0 <= r < |rows| ==> col < |rows[r]|
  }

  /** The conversion succeeds on column `col` of every row. */
  predicate AllConvert(rows: seq<seq<string>>, col: nat, conv: string -> Option<real>)
  {
    forall r :: 0 <= r < |rows| ==> col < |rows[r]| && conv(rows[r][col]).Some?
  }

  function TextKey(col: nat): seq<string> -> SortValue
  {
    row => Str(if col < |row| then row[col] else "")
  }

  function NumberKey(col: nat, conv: string -> Option<real>): seq<string> -> SortValue
  {
    row => if col < |row| && conv(row[col]).Some? then Num(conv(row[col]).value) else Num(0.0)
  }

  /** The key of `sort_list`: row 0's conversion when it has one and it
      succeeds on every row, otherwise the text of the column. */
  function RowKey(rows: seq<seq<string>>, col: nat, sortKey: Option<string -> Option<real>>): seq<string> -> SortValue
  {
    if sortKey.Some? && AllConvert(rows, col, sortKey.value) then NumberKey(col, sortKey.value) else TextKey(col)
  }

  /** The rows' texts in the order `sort_list` leaves them. */
  function SortRows(rows: seq<seq<string>>, col: nat, sortKey: Option<string -> Option<real>>, rev: bool): seq<seq<string>>
  {
    StableSort(rows, RowKey(rows, col, sortKey), rev)
  }

  /** Sorting the rows permutes them, orders them by the key and keeps rows
      of equal key in their previous order. */
  lemma SortRowsSpec(rows: seq<seq<string>>, col: nat, sortKey: Option<string -> Option<real>>, rev: bool)
    ensures multiset(SortRows(rows, col, sortKey, rev)) == multiset(rows)
    ensures |SortRows(rows, col, sortKey, rev)| == |rows|
    ensures SortedBy(SortRows(rows, col, sortKey, rev), RowKey(rows, col, sortKey), rev)
    ensures forall k :: WithKey(SortRows(rows, col, sortKey, rev), RowKey(rows, col, sortKey), k)
                     == WithKey(rows, RowKey(rows, col, sortKey), k)
  {
    var key := RowKey(rows, col, sortKey);
    StableSortPermutes(rows, key, rev);
    StableSortSorts(rows, key, rev);
    forall k ensures WithKey(StableSort(rows, key, rev), key, k) == WithKey(rows, key, k) {
      StableSortIsStable(rows, key, rev, k);
    }
    assert |multiset(SortRows(rows, col, sortKey, rev))| == |multiset(rows)|;
  }

  /** What the order means cell by cell: by converted number when every
      row converts, otherwise by text; descending when `rev`. */
  lemma SortRowsOrdered(rows: seq<seq<string>>, col: nat, sortKey: Option<string -> Option<real>>, rev: bool, i: nat, j: nat)
    requires HaveColumn(rows, col)
    requires i < j < |rows|
    ensures var out := SortRows(rows, col, sortKey, rev);
      |out| == |rows| && col < |out[i]| && col < |out[j]| &&
      if sortKey.Some? && AllConvert(rows, col, sortKey.value) then
        sortKey.value(out[i][col]).Some? && sortKey.value(out[j][col]).Some? &&
        var a, b := sortKey.value(out[i][col]).value, sortKey.value(out[j][col]).value;
        if rev then a >= b else a <= b
      else
        if rev then !LexLess(out[i][col], out[j][col]) else !LexLess(out[j][col], out[i][col])
  {
    var out := SortRows(rows, col, sortKey, rev);
    SortRowsSpec(rows, col, sortKey, rev);
    assert out[i] in multiset(rows) && out[j] in multiset(rows) by {
      assert out[i] in multiset(out) && out[j] in multiset(out);
    }
    var m :| 0 <= m < |rows| && rows[m] == out[i];
    var n :| 0 <= n < |rows| && rows[n] == out[j];
  }

  /** The ascending text sort of three one-cell rows. */
  lemma SortRowsByTextExample()
    ensures SortRows([["3.5"], ["1.2"], ["2.8"]], 0, None, false) == [["1.2"], ["2.8"], ["3.5"]]
    ensures SortRows([["3.5"], ["1.2"], ["2.8"]], 0, None, true) == [["3.5"], ["2.8"], ["1.2"]]
  {
    var a, b, c := ["3.5"], ["1.2"], ["2.8"];
    var rows := [a, b, c];
    var key := TextKey(0);
    assert RowKey(rows, 0, None) == key;
    assert key(a) == Str("3.5") && key(b) == Str("1.2") && key(c) == Str("2.8");
    assert LexLess("1.2", "3.5") && LexLess("2.8", "3.5") && LexLess("1.2", "2.8");
    assert !LexLess("3.5", "1.2") && !LexLess("3.5", "2.8") && !LexLess("2.8", "1.2");
    BeforeIsStrictTotalOrder(key(b), key(c), key(a), false);
    assert rows[..2] == [a, b] && [a, b][..1] == [a] && [a][..0] == [];
    assert StableSort([a], key, false) == [a];
    assert StableSort([a], key, true) == [a];
    assert StableSort([a, b], key, false) == [b, a];
    assert [a, b][..1] == [a] && [a, b][1] == b;
    assert Insert(b, [a], key, true) == [a] + Insert(b, [], key, true);
    assert StableSort([a, b], key, true) == Insert(b, [a], key, true);
    assert StableSort([a, b], key, true) == [a, b];
    assert Insert(c, [a], key, false) == [c, a];
    assert Insert(c, [b], key, true) == [c] + [b];
    assert Insert(c, [a, b], key, true) == [a] + Insert(c, [b], key, true);
  }

  /** A conversion like Python's `float`, on the texts of the examples below. */
  function ExampleConversion(s: string): Option<real>
  {
    if s == "10" then Some(10.0) else if s == "9" then Some(9.0) else None
  }

  /** With a converting key "10" and "9" sort as numbers; with no key, or
      when one row does not convert, they sort as texts. */
  lemma SortRowsByNumberExample()
    ensures SortRows([["10"], ["9"]], 0, Some(ExampleConversion), false) == [["9"], ["10"]]
    ensures SortRows([["10"], ["9"]], 0, Some(ExampleConversion), true) == [["10"], ["9"]]
    ensures SortRows([["10"], ["9"]], 0, None, false) == [["10"], ["9"]]
    ensures SortRows([["10"], ["9"], ["n/a"]], 0, Some(ExampleConversion), false) == [["10"], ["9"], ["n/a"]]
  {
    var a, b, c := ["10"], ["9"], ["n/a"];
    var rows := [a, b];
    assert rows[..1] == [a] && rows[1] == b;
    assert AllConvert(rows, 0, ExampleConversion);
    var num := NumberKey(0, ExampleConversion);
    assert RowKey(rows, 0, Some(ExampleConversion)) == num;
    assert num(a) == Num(10.0) && num(b) == Num(9.0);
    assert [a][..0] == [] && [a][0] == a;
    assert StableSort([a], num, false) == Insert(a, [], num, false) == [a];
    assert StableSort([a], num, true) == Insert(a, [], num, true) == [a];
    assert Insert(b, [a], num, false) == [b, a];
    assert Insert(b, [a], num, true) == [a] + Insert(b, [], num, true);
    var text := TextKey(0);
    assert RowKey(rows, 0, None) == text;
    assert text(a) == Str("10") && text(b) == Str("9") && text(c) == Str("n/a");
    assert LexLess("10", "9") && LexLess("9", "n/a");
    assert !LexLess("9", "10") && !LexLess("n/a", "9");
    assert StableSort([a], text, false) == [a];
    assert Insert(b, [a], text, false) == [a] + Insert(b, [], text, false);
    var three := [a, b, c];
    assert !AllConvert(three, 0, ExampleConversion) by {
      assert ExampleConversion(three[2][0]).None?;
    }
    assert RowKey(three, 0, Some(ExampleConversion)) == text;
    assert three[..2] == rows && three[2] == c;
    assert StableSort(rows, text, false) == [a, b];
    assert Insert(c, [b], text, false) == [b] + Insert(c, [], text, false);
    assert Insert(c, [a, b], text, false) == [a] + Insert(c, [b], text, false);
  }

  /** Sorting keeps every row's length. */
  lemma SortRowsKeepsWidth(rows: seq<seq<string>>, col: nat, sortKey: Option<string -> Option<real>>, rev: bool, n: nat)
    requires forall r :: 0 <= r < |rows| ==> |rows[r]| == n
    ensures |SortRows(rows, col, sortKey, rev)| == |rows|
    ensures forall r :: 0 <= r < |rows| ==> |SortRows(rows, col, sortKey, rev)[r]| == n
  {
    var out := SortRows(rows, col, sortKey, rev);
    SortRowsSpec(rows, col, sortKey, rev);
    forall r | 0 <= r < |out| ensures |out[r]| == n {
      assert out[r] in multiset(rows) by {
        assert out[r] in multiset(out);
      }
      var m :| 0 <= m < |rows| && rows[m] == out[r];
    }
  }
}
