/**
 * The cell grid (`GridTable`): cells as records, rows as sequences of
 * cells, the grid's flat child list and the two pieces of arithmetic the
 * table derives from it: the row count (`row_count`) and the row of a
 * flat position (`_get_row_index`).
 */
module Grid {
  import opened Wrappers

  /** An RGBA colour. */
  datatype Color = Rgba(r: real, g: real, b: real, a: real)

  /** Colour of an unselected cell (`_color_widget`), also Kivy's default background. */
  const DefaultColorWidget: Color := Rgba(1.0, 1.0, 1.0, 1.0)
  /** Colour of a cell of the chosen row (`_color_click`). */
  const DefaultColorClick: Color := Rgba(0.8, 0.8, 0.8, 1.0)
  /** Kivy's default widget width, which `add_button_row` leaves on its cells. */
  const DefaultWidgetWidth: int := 100

  /** The widget class a cell is combined with (`cell_type`). */
  datatype Content = ButtonContent | TextInputContent | OtherContent(name: string)

  /** One cell: its text, width, normal and chosen colours, the colour it
      shows, its content class, and the optional text-to-number conversion
      `sort_list` uses (`None` when the text cannot be converted). */
  datatype Cell = Cell(
    text: string,
    width: int,
    colorWidget: Color,
    colorClick: Color,
    background: Color,
    content: Content,
    sortKey: Option<string -> Option<real>>)

  type Row = seq<Cell>

  /** The grid's children in the order they were added: row by row. */
  function Flatten<T>(rows: seq<seq<T>>): seq<T>
  {
    if rows == [] then [] else rows[0] + Flatten(rows[1..])
  }

  ghost predicate Uniform<T>(rows: seq<seq<T>>, cols: nat)
  {
    forall r :: 0 <= r < |rows| ==> |rows[r]| == cols
  }

  lemma {:induction false} FlattenLength<T>(rows: seq<seq<T>>, cols: nat)
    requires Uniform(rows, cols)
    ensures |Flatten(rows)| == |rows| * cols
  {
    if rows != [] {
      FlattenLength(rows[1..], cols);
      assert |rows| * cols == cols + (|rows| - 1) * cols;
    }
  }

  /** In the flat child list of uniform rows, cell (r, c) sits at r * cols + c. */
  lemma {:induction false} FlattenAt<T>(rows: seq<seq<T>>, cols: nat, r: nat, c: nat)
    requires Uniform(rows, cols)
    requires r < |rows| && c < cols
    ensures |Flatten(rows)| == |rows| * cols
    ensures r * cols + c < |Flatten(rows)| && Flatten(rows)[r * cols + c] == rows[r][c]
  {
    FlattenLength(rows, cols);
    MultiplyMonotone(r + 1, |rows|, cols);
    assert (r + 1) * cols == r * cols + cols;
    if r > 0 {
      FlattenAt(rows[1..], cols, r - 1, c);
      var k := r * cols + c;
      assert k - cols == (r - 1) * cols + c;
      assert Flatten(rows) == rows[0] + Flatten(rows[1..]);
    }
  }

  /** `row_count`: the number of rows needed for `itemCount` children,
      a last incomplete row counting as one. */
  function RowCountOf(itemCount: nat, cols: nat): (r: nat)
    requires cols > 0
    ensures itemCount <= r * cols
    ensures r == 0 || (r - 1) * cols < itemCount
  {
    var q, rem := itemCount / cols, itemCount % cols;
    assert q * cols + rem == itemCount;
    if rem > 0 then
      assert (q + 1) * cols == q * cols + cols;
      q + 1
    else
      q
  }

  /** A full grid of n rows counts n rows. */
  lemma RowCountOfFull(n: nat, cols: nat)
    requires cols > 0
    ensures RowCountOf(n * cols, cols) == n
  {
    DivOfRowPosition(n, 0, cols);
    assert n * cols + 0 == n * cols;
  }

  lemma MultiplyMonotone(a: nat, b: nat, c: nat)
    requires a <= b
    ensures a * c <= b * c
  {
    assert b * c == a * c + (b - a) * c;
  }

  /** The first position of `x` in `s`. */
  function FirstIndex<T(==)>(s: seq<T>, x: T): (r: Option<nat>)
    ensures r.None? <==> x !in s
    ensures r.Some? ==> r.value < |s| && s[r.value] == x && forall i :: 0 <= i < r.value ==> s[i] != x
  {
    if s == [] then None
    else if s[0] == x then Some(0)
    else match FirstIndex(s[1..], x)
      case None => None
      case Some(i) => Some(i + 1)
  }

  /** `_get_row_index`: the row of the first child equal to `item`, found
      by its position in the flat child list in the order the children were
      added (the order `reversed(self.children)` walks); `None` when absent. */
  function GetRowIndex<T(==)>(children: seq<T>, item: T, cols: nat): (r: Option<nat>)
    requires cols > 0
    ensures r.None? <==> item !in children
    ensures r.Some? ==> r.value * cols < |children|
    ensures r.Some? ==>
              exists i :: 0 <= i < |children| && children[i] == item
                && (forall j :: 0 <= j < i ==> children[j] != item)
                && r.value * cols <= i < r.value * cols + cols
  {
    match FirstIndex(children, item)
    case None => None
    case Some(i) =>
      var q, m := i / cols, i % cols;
      assert q * cols + m == i && 0 <= m < cols;
      Some(q)
  }

  /** Of a grid whose children are distinct, the lookup finds the row of
      every cell, and nothing for an item not in the grid. */
  lemma GetRowIndexOfCell<T>(rows: seq<seq<T>>, cols: nat, r: nat, c: nat)
    requires cols > 0 && Uniform(rows, cols)
    requires forall i, j :: 0 <= i < j < |Flatten(rows)| ==> Flatten(rows)[i] != Flatten(rows)[j]
    requires r < |rows| && c < cols
    ensures GetRowIndex(Flatten(rows), rows[r][c], cols) == Some(r)
  {
    var flat := Flatten(rows);
    FlattenAt(rows, cols, r, c);
    var k := r * cols + c;
    var i := FirstIndex(flat, rows[r][c]).value;
    assert i == k;
    DivOfRowPosition(r, c, cols);
  }

  lemma DivOfRowPosition(r: nat, c: nat, cols: nat)
    requires c < cols
    ensures (r * cols + c) / cols == r
  {
    var q := (r * cols + c) / cols;
    var m := (r * cols + c) % cols;
    assert q * cols + m == r * cols + c;
    assert (q - r) * cols == q * cols - r * cols;
    MultipleSign(q - r, cols);
  }

  /** The sign of a multiple of a positive number. */
  lemma MultipleSign(d: int, c: nat)
    ensures d >= 0 ==> d * c >= 0
    ensures d >= 1 ==> d * c >= c
    ensures d <= -1 ==> d * c <= 0 - c as int
  {
    if d >= 1 {
      MultiplyMonotone(1, d, c);
    } else if d <= -1 {
      MultiplyMonotone(1, -d, c);
      assert (-d) * c == -(d * c);
    }
  }

  /** Identities of the grid's cell widgets: cell (r, c) is the child
      added (r * cols + c)-th, and widgets compare by identity. */
  function Identities(rows: nat, cols: nat): (ids: seq<seq<nat>>)
    ensures |ids| == rows && Uniform(ids, cols)
    ensures forall r, c :: 0 <= r < rows && 0 <= c < cols ==> ids[r][c] == r * cols + c
  {
    seq(rows, r => seq(cols, c => r * cols + c))
  }

  /** No two children of the grid are the same widget. */
  lemma IdentitiesDistinct(rows: nat, cols: nat)
    requires cols > 0
    ensures |Flatten(Identities(rows, cols))| == rows * cols
    ensures forall k :: 0 <= k < |Flatten(Identities(rows, cols))| ==> Flatten(Identities(rows, cols))[k] == k
    ensures forall i, j :: 0 <= i < j < |Flatten(Identities(rows, cols))| ==>
      Flatten(Identities(rows, cols))[i] != Flatten(Identities(rows, cols))[j]
  {
    var ids := Identities(rows, cols);
    FlattenLength(ids, cols);
    forall k | 0 <= k < rows * cols ensures Flatten(ids)[k] == k {
      IdentityAt(rows, cols, k);
    }
  }

  lemma IdentityAt(rows: nat, cols: nat, k: nat)
    requires cols > 0 && k < rows * cols
    ensures k < |Flatten(Identities(rows, cols))| && Flatten(Identities(rows, cols))[k] == k
  {
    var r, c := k / cols, k % cols;
    assert k == r * cols + c;
    assert (r - rows) * cols == r * cols - rows * cols;
    MultipleSign(r - rows, cols);
    FlattenAt(Identities(rows, cols), cols, r, c);
  }
}
