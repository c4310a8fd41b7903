/**
 * The bookkeeping of the `Table` widget: the grid's rows of cells, the
 * row-number labels, the chosen row, the header columns' widths, texts
 * and sort directions, and the column-width settings. Widgets are
 * reduced to the values the table reads and writes; a cell is a record.
 */
module TableWidget {
  import opened Wrappers
  import opened Grid
  import opened Sorting
  import opened Decimal
  import opened EastAsianWidth
  import opened Navigation

  /** `default_col_width`. */
  const DefaultColWidth: int := 300
  /** Width each header splitter is given when the columns are created. */
  const SplitterInitialWidth: int := 10

  /** An entry of `cols_width`: 'default', '', 'auto', or a number of pixels. */
  datatype WidthSpec = Default | Blank | Auto | Pixels(px: int)

  /** The header width an entry of `cols_width` asks for, given the
      column's header text. */
  function ResolveWidth(spec: WidthSpec, headerText: string, eaw: char -> EawClass): (w: int)
    ensures spec.Default? || spec.Blank? ==> w == DefaultColWidth
    ensures spec.Pixels? ==> w == spec.px
    ensures spec.Auto? ==> w == 10 * WidthCount(headerText, eaw)
    ensures spec.Auto? ==> 10 * |headerText| <= w <= 20 * |headerText|
  {
    match spec
    case Default => DefaultColWidth
    case Blank => DefaultColWidth
    case Auto => AutoWidth(headerText, eaw)
    case Pixels(px) => px
  }

  /** The header widths `set_col_width` establishes for the first n columns. */
  ghost function ResolvedWidths(specs: seq<WidthSpec>, texts: seq<string>, eaw: char -> EawClass, n: nat): (ws: seq<int>)
    requires n <= |specs| && n <= |texts|
    ensures |ws| == n && forall c :: 0 <= c < n ==> ws[c] == ResolveWidth(specs[c], texts[c], eaw)
  {
    seq(n, c requires 0 <= c < n => ResolveWidth(specs[c], texts[c], eaw))
  }

  function Repeat<T>(x: T, n: nat): (s: seq<T>)
    ensures |s| == n && forall i :: 0 <= i < n ==> s[i] == x
  {
    seq(n, _ => x)
  }

  /** The texts of the number labels of a table of n rows: "1" .. "n". */
  function NumberTexts(n: nat): (s: seq<string>)
    ensures |s| == n
  {
    if n == 0 then [] else NumberTexts(n - 1) + [NatToString(n)]
  }

  /** Label i shows the number i + 1, and every label text is different. */
  lemma {:induction false} NumberTextsAt(n: nat, i: nat)
    requires i < n
    ensures NumberTexts(n)[i] == NatToString(i + 1)
    ensures ParseNat(NumberTexts(n)[i]) == i + 1
  {
    if i < n - 1 {
      NumberTextsAt(n - 1, i);
    }
    ParseNatToString(i + 1);
  }

  lemma NumberTextsPrefix(n: nat)
    ensures NumberTexts(n + 1)[..n] == NumberTexts(n)
  {
  }

  /** The rows without row n, the others in their order. */
  function Without(rows: seq<Row>, n: nat): (rest: seq<Row>)
    requires n < |rows|
    ensures |rest| == |rows| - 1
    ensures forall r :: 0 <= r < |rest| ==> rest[r] == if r < n then rows[r] else rows[r + 1]
  {
    rows[..n] + rows[n + 1..]
  }

  /** Arguments of one cell of `add_row`: the widget class and the keyword
      arguments the table looks at. */
  datatype CellSpec = CellSpec(
    content: Content,
    text: string,
    colorWidget: Option<Color>,
    colorClick: Option<Color>,
    sortKey: Option<string -> Option<real>>)

  /** The cell `add_row` creates from a spec, at the given width. The
      background is the normal colour: `color_widget`'s setter paints it,
      and without one Kivy's default background is that colour. */
  function MakeCell(spec: CellSpec, width: int): (cell: Cell)
    ensures cell.text == spec.text && cell.width == width && cell.content == spec.content
    ensures cell.colorWidget == (if spec.colorWidget.Some? then spec.colorWidget.value else DefaultColorWidget)
    ensures cell.colorClick == (if spec.colorClick.Some? then spec.colorClick.value else DefaultColorClick)
    ensures cell.background == cell.colorWidget && cell.sortKey == spec.sortKey
  {
    var normal := if spec.colorWidget.Some? then spec.colorWidget.value else DefaultColorWidget;
    var click := if spec.colorClick.Some? then spec.colorClick.value else DefaultColorClick;
    Cell(spec.text, width, normal, click, normal, spec.content, spec.sortKey)
  }

  /** The cell `add_button_row` creates. */
  function ButtonCell(text: string): Cell
  {
    Cell(text, DefaultWidgetWidth, DefaultColorWidget, DefaultColorClick, DefaultColorWidget, ButtonContent, None)
  }

  /** What an operation reports instead of printing an error. `IndexError`
      is the exception `choose_row` raises when the stored chosen row no
      longer exists. */
  datatype Status = Done | ArityError | NothingToDelete | NothingToChoose | IndexError

  function RowTexts(row: Row): (t: seq<string>)
    ensures |t| == |row| && forall c :: 0 <= c < |row| ==> t[c] == row[c].text
  {
    seq(|row|, c requires 0 <= c < |row| => row[c].text)
  }

  /** The rows' texts, the data `sort_list` sorts. */
  function TextRows(rows: seq<Row>): (t: seq<seq<string>>)
    ensures |t| == |rows| && forall r :: 0 <= r < |rows| ==> t[r] == RowTexts(rows[r])
  {
    seq(|rows|, r requires 0 <= r < |rows| => RowTexts(rows[r]))
  }

  /** The cell as it looks as part of the chosen row, and as part of another row. */
  function Chosen(cell: Cell): Cell { cell.(background := cell.colorClick) }
  function Plain(cell: Cell): Cell { cell.(background := cell.colorWidget) }

  /** The grid after `choose_row` recolours row `from` (the previously
      chosen one) to normal and row `to` to chosen, in that order. */
  ghost predicate Repainted(before: seq<Row>, after: seq<Row>, from: nat, to: nat)
  {
    |after| == |before|
    && (forall r :: 0 <= r < |before| ==> |after[r]| == |before[r]|)
    && forall r, c :: 0 <= r < |before| && 0 <= c < |before[r]| ==>
         after[r][c] == if r == to then Chosen(before[r][c])
                        else if r == from then Plain(before[r][c])
                        else before[r][c]
  }

  /** Row r shows as chosen, or shows as not chosen. */
  ghost predicate ShowsChosen(row: Row)
  {
    forall c :: 0 <= c < |row| ==> row[c].background == row[c].colorClick
  }
  ghost predicate ShowsPlain(row: Row)
  {
    forall c :: 0 <= c < |row| ==> row[c].background == row[c].colorWidget
  }

  /** Exactly row k is shown as chosen: the selection invariant `choose_row` keeps. */
  ghost predicate Highlight(rows: seq<Row>, k: nat)
  {
    k < |rows| && ShowsChosen(rows[k]) && forall r :: 0 <= r < |rows| && r != k ==> ShowsPlain(rows[r])
  }

  /** Choosing moves the highlight: from a grid highlighting row `from`,
      repainting gives one highlighting row `to`. */
  lemma RepaintMovesHighlight(before: seq<Row>, after: seq<Row>, from: nat, to: nat)
    requires Highlight(before, from) && to < |before|
    requires Repainted(before, after, from, to)
    ensures Highlight(after, to)
  {
    forall r | 0 <= r < |after| && r != to ensures ShowsPlain(after[r]) {
      forall c | 0 <= c < |after[r]| ensures after[r][c].background == after[r][c].colorWidget {
        assert c < |before[r]|;
      }
    }
    forall c | 0 <= c < |after[to]| ensures after[to][c].background == after[to][c].colorClick {
      assert c < |before[to]|;
    }
  }

  /** Deleting a row before the chosen one, as `del_row` does without
      moving `chosen_row`, leaves the highlight one row above it. */
  lemma DeleteBeforeChosenShiftsHighlight(rows: seq<Row>, chosen: nat, n: nat)
    requires Highlight(rows, chosen) && n < chosen
    ensures Highlight(Without(rows, n), chosen - 1)
  {
  }

  /** The grid after `set_col_width`: in every column whose header width
      changed, every cell takes the new width; other cells are unchanged. */
  ghost predicate WidthsPropagated(before: seq<Row>, after: seq<Row>, oldHeaders: seq<int>, newHeaders: seq<int>)
  {
    |after| == |before|
    && (forall r :: 0 <= r < |before| ==> |after[r]| == |before[r]|)
    && forall r, c :: 0 <= r < |before| && 0 <= c < |before[r]| ==>
         after[r][c] == if c < |oldHeaders| && c < |newHeaders| && oldHeaders[c] != newHeaders[c]
                        then before[r][c].(width := newHeaders[c]) else before[r][c]
  }

  /** Propagation keeps every cell at its header's width. */
  lemma PropagationKeepsWidths(before: seq<Row>, after: seq<Row>, oldHeaders: seq<int>, newHeaders: seq<int>)
    requires |oldHeaders| == |newHeaders|
    requires forall r, c :: 0 <= r < |before| && 0 <= c < |before[r]| && c < |oldHeaders| ==> before[r][c].width == oldHeaders[c]
    requires WidthsPropagated(before, after, oldHeaders, newHeaders)
    ensures forall r, c :: 0 <= r < |after| && 0 <= c < |after[r]| && c < |newHeaders| ==> after[r][c].width == newHeaders[c]
  {
    forall r, c | 0 <= r < |after| && 0 <= c < |after[r]| && c < |newHeaders|
      ensures after[r][c].width == newHeaders[c]
    {
      assert c < |before[r]|;
    }
  }

  /** The same cells in the same places, with only their texts changed. */
  ghost predicate OnlyTexts(before: seq<Row>, after: seq<Row>)
  {
    |after| == |before|
    && (forall r :: 0 <= r < |before| ==> |after[r]| == |before[r]|)
    && forall r, c :: 0 <= r < |before| && 0 <= c < |before[r]| ==>
         after[r][c] == before[r][c].(text := after[r][c].text)
  }

  /** Changing texts changes neither which row shows as chosen nor any width. */
  lemma OnlyTextsKeepsLook(before: seq<Row>, after: seq<Row>, k: nat)
    requires OnlyTexts(before, after)
    ensures Highlight(before, k) ==> Highlight(after, k)
    ensures forall r, c :: 0 <= r < |after| && 0 <= c < |after[r]| ==> after[r][c].width == before[r][c].width
  {
    forall r, c | 0 <= r < |after| && 0 <= c < |after[r]|
      ensures after[r][c].width == before[r][c].width
      ensures after[r][c].background == before[r][c].background
      ensures after[r][c].colorClick == before[r][c].colorClick && after[r][c].colorWidget == before[r][c].colorWidget
    {
      assert c < |before[r]|;
    }
  }

  class Table {
    /** `_cols`, fixed when the header columns are created. */
    const cols: nat
    /** `unicodedata.east_asian_width`, supplied by the host. */
    const eaw: char -> EawClass
    /** `_cols_width`. */
    var colsWidth: seq<WidthSpec>
    /** Width of each column's header splitter, in column order. */
    var headerWidths: seq<int>
    /** Text of each column's header label. */
    var headerTexts: seq<string>
    /** `rev` of each header label: the direction its next click sorts in. */
    var headerRev: seq<bool>
    /** The column and direction of the sort indicator, once drawn. */
    var sortMark: Option<(nat, bool)>
    /** `grid._cells`. */
    var cells: seq<Row>
    /** Texts of the number panel's labels, oldest first. */
    var numberLabels: seq<string>
    /** `_chosen_row`. */
    var chosenRow: nat
    /** `focus`. */
    var focused: bool

    /** `cols` is positive and every row has `cols` cells. */
    ghost predicate Shaped()
      reads this
    {
      cols > 0 && forall r :: 0 <= r < |cells| ==> |cells[r]| == cols
    }

    ghost predicate Valid()
      reads this
    {
      && Shaped()
      && |headerWidths| == cols && |headerTexts| == cols && |headerRev| == cols
      && |colsWidth| >= cols
      && numberLabels == NumberTexts(|cells|)
    }

    /** Every cell has its column's header width. */
    ghost predicate WidthsAgree()
      reads this
    {
      forall r, c :: 0 <= r < |cells| && 0 <= c < |cells[r]| && c < |headerWidths| ==> cells[r][c].width == headerWidths[c]
    }

    /** A new table after `init_ui` and the assignment `cols = n`: n header
        splitters of width 10, n widths of 300 in `cols_width`, no rows.
        The header texts come from the layout file. */
    constructor (n: nat, texts: seq<string>, eaw: char -> EawClass)
      requires n > 0 && |texts| == n
      ensures Valid()
      ensures cols == n && this.eaw == eaw
      ensures colsWidth == Repeat(Pixels(DefaultColWidth), n)
      ensures headerWidths == Repeat(SplitterInitialWidth, n)
      ensures headerTexts == texts && headerRev == Repeat(false, n)
      ensures cells == [] && numberLabels == [] && chosenRow == 0 && !focused && sortMark == None
    {
      var widths: seq<WidthSpec> := [];
      var splitters: seq<int> := [];
      for num := 0 to n
        invariant widths == Repeat(Pixels(DefaultColWidth), num)
        invariant splitters == Repeat(SplitterInitialWidth, num)
      {
        splitters := splitters + [SplitterInitialWidth];
        widths := widths + [Pixels(DefaultColWidth)];
      }
      cols := n;
      this.eaw := eaw;
      colsWidth := widths;
      headerWidths := splitters;
      headerTexts := texts;
      headerRev := Repeat(false, n);
      sortMark := None;
      cells := [];
      numberLabels := [];
      chosenRow := 0;
      focused := false;
    }

    /** `row_count`, derived from the number of children of the grid. */
    function RowCount(): (n: nat)
      reads this
      requires Shaped()
      ensures n == |cells|
    {
      FlattenLength(cells, cols);
      RowCountOfFull(|cells|, cols);
      RowCountOf(|Flatten(cells)|, cols)
    }

    /** `_on_change_label_width(instance, width, col=col)`: `width` is None
        with fewer than two positional arguments, `col` None without the
        keyword. Sets the width of cell `col` of every row. */
    method OnChangeLabelWidth(width: Option<int>, col: Option<nat>)
      requires Valid()
      requires width.Some? && col.Some? && cells != [] ==> col.value < cols
      modifies this`cells
      ensures Valid()
      ensures width.None? || col.None? || old(cells) == [] ==> cells == old(cells)
      ensures width.Some? && col.Some? && old(cells) != [] ==>
        |cells| == |old(cells)|
        && forall r, c :: 0 <= r < |cells| && 0 <= c < cols ==>
             cells[r][c] == if c == col.value then old(cells[r][c]).(width := width.value) else old(cells[r][c])
    {
      if width.None? || col.None? {
        return;
      }
      if cells == [] {
        return;
      }
      var w, k := width.value, col.value;
      for r := 0 to |cells|
        invariant |cells| == |old(cells)|
        invariant forall i :: 0 <= i < |cells| ==> |cells[i]| == cols
        invariant forall i, c :: 0 <= i < |cells| && 0 <= c < cols ==>
          cells[i][c] == if c == k && i < r then old(cells[i][c]).(width := w) else old(cells[i][c])
      {
        cells := cells[r := cells[r][k := cells[r][k].(width := w)]];
      }
    }

    /** Assigning a header splitter's width, as dragging it or
        `set_col_width` does: Kivy calls `_on_change_label_width` only when
        the value changes. */
    method SetHeaderWidth(col: nat, w: int)
      requires Valid() && col < cols
      modifies this`headerWidths, this`cells
      ensures Valid()
      ensures headerWidths == old(headerWidths)[col := w]
      ensures old(headerWidths[col]) != w ==>
        |cells| == |old(cells)|
        && forall r, c :: 0 <= r < |cells| && 0 <= c < cols ==>
             cells[r][c] == if c == col then old(cells[r][c]).(width := w) else old(cells[r][c])
      ensures old(headerWidths[col]) == w ==> cells == old(cells)
      ensures WidthsPropagated(old(cells), cells, old(headerWidths), headerWidths)
      ensures old(WidthsAgree()) ==> WidthsAgree()
      ensures WidthsAgree() ==> forall r :: 0 <= r < |cells| ==> cells[r][col].width == w
    {
      if headerWidths[col] != w {
        headerWidths := headerWidths[col := w];
        OnChangeLabelWidth(Some(w), Some(col));
      }
    }

    /** `set_col_width`: resolves the first `cols` entries of `cols_width`
        into header widths, propagating each change to its column. */
    method SetColWidth()
      requires Valid()
      modifies this`headerWidths, this`cells
      ensures Valid()
      ensures headerWidths == ResolvedWidths(colsWidth, headerTexts, eaw, cols)
      ensures WidthsPropagated(old(cells), cells, old(headerWidths), headerWidths)
      ensures old(WidthsAgree()) ==> WidthsAgree()
    {
      for col := 0 to |colsWidth|
        invariant Valid()
        invariant forall c :: 0 <= c < cols ==>
          headerWidths[c] == if c < col then ResolveWidth(colsWidth[c], headerTexts[c], eaw) else old(headerWidths[c])
        invariant WidthsPropagated(old(cells), cells, old(headerWidths), headerWidths)
      {
        if col < cols {
          var w: int;
          var spec := colsWidth[col];
          if spec.Default? || spec.Blank? {
            w := DefaultColWidth;
          } else if spec.Auto? {
            var count := GetEastAsianWidthCount(headerTexts[col], eaw);
            w := count * 10;
          } else {
            w := spec.px;
          }
          ghost var before, hs := cells, headerWidths;
          SetHeaderWidth(col, w);
          PropagatedStep(old(cells), before, cells, old(headerWidths), hs, col, w);
        }
      }
      if old(WidthsAgree()) {
        PropagationKeepsWidths(old(cells), cells, old(headerWidths), headerWidths);
      }
    }

    /** One more column set by `SetHeaderWidth` extends the propagation so far. */
    static lemma PropagatedStep(a: seq<Row>, b: seq<Row>, c: seq<Row>, h0: seq<int>, h1: seq<int>, col: nat, w: int)
      requires |h0| == |h1| && col < |h1| && h1[col] == h0[col]
      requires WidthsPropagated(a, b, h0, h1)
      requires WidthsPropagated(b, c, h1, h1[col := w])
      ensures WidthsPropagated(a, c, h0, h1[col := w])
    {
      var h2 := h1[col := w];
      forall r, k | 0 <= r < |a| && 0 <= k < |a[r]|
        ensures c[r][k] == if k < |h0| && k < |h2| && h0[k] != h2[k] then a[r][k].(width := h2[k]) else a[r][k]
      {
        PropagatedAt(a, b, h0, h1, r, k);
        PropagatedAt(b, c, h1, h2, r, k);
      }
      forall r | 0 <= r < |a| ensures |c[r]| == |a[r]| {
        assert |b[r]| == |a[r]|;
      }
      assert WidthsPropagated(a, c, h0, h2);
    }

    static lemma PropagatedAt(a: seq<Row>, b: seq<Row>, h0: seq<int>, h1: seq<int>, r: nat, k: nat)
      requires WidthsPropagated(a, b, h0, h1) && r < |a| && k < |a[r]|
      ensures r < |b| && k < |b[r]|
      ensures b[r][k] == if k < |h0| && k < |h1| && h0[k] != h1[k] then a[r][k].(width := h1[k]) else a[r][k]
    {
    }

    /** The `cols_width` setter: pads the list with the default width up to
        `cols` entries, stores it and applies it. */
    method SetColsWidth(ws: seq<WidthSpec>)
      requires Valid()
      modifies this`colsWidth, this`headerWidths, this`cells
      ensures Valid()
      ensures colsWidth == if |ws| < cols then ws + Repeat(Pixels(DefaultColWidth), cols - |ws|) else ws
      ensures headerWidths == ResolvedWidths(colsWidth, headerTexts, eaw, cols)
      ensures WidthsPropagated(old(cells), cells, old(headerWidths), headerWidths)
      ensures old(WidthsAgree()) ==> WidthsAgree()
    {
      var padded := ws;
      var left := cols - |ws|;
      if left > 0 {
        for i := 0 to left
          invariant padded == ws + Repeat(Pixels(DefaultColWidth), i)
        {
          padded := padded + [Pixels(DefaultColWidth)];
        }
      }
      colsWidth := padded;
      SetColWidth();
    }

    /** Setting a header label's text, which re-applies `set_col_width` so
        that an 'auto' column fits the new text. */
    method SetHeaderText(col: nat, text: string)
      requires Valid() && col < cols
      modifies this`headerTexts, this`headerWidths, this`cells
      ensures Valid()
      ensures headerTexts == old(headerTexts)[col := text]
      ensures headerWidths == ResolvedWidths(colsWidth, headerTexts, eaw, cols)
      ensures WidthsPropagated(old(cells), cells, old(headerWidths), headerWidths)
      ensures old(WidthsAgree()) ==> WidthsAgree()
    {
      headerTexts := headerTexts[col := text];
      SetColWidth();
    }

    /** The `chosen_row` setter: stores the number without recolouring. */
    method SetChosenRow(value: nat)
      modifies this`chosenRow
      ensures chosenRow == value
    {
      chosenRow := value;
    }

    /** The recolouring loop of `choose_row`. */
    method Paint(from: nat, to: nat)
      requires Valid() && from < |cells| && to < |cells|
      modifies this`cells
      ensures Valid()
      ensures Repainted(old(cells), cells, from, to)
      ensures WidthsAgree() == old(WidthsAgree())
    {
      for c := 0 to cols
        invariant Valid() && |cells| == |old(cells)|
        invariant forall r, k :: 0 <= r < |cells| && 0 <= k < cols ==>
          cells[r][k] == if k < c && r == to then Chosen(old(cells[r][k]))
                         else if k < c && r == from then Plain(old(cells[r][k]))
                         else old(cells[r][k])
      {
        cells := cells[from := cells[from][c := Plain(cells[from][c])]];
        cells := cells[to := cells[to][c := Chosen(cells[to][c])]];
      }
    }

    /** The effect of `choose_row(rowNum, editRow)` reporting `status`. With
        rows present, a stored chosen row that no longer exists makes it
        raise before changing anything; an out-of-range `rowNum` highlights
        the last row but is stored as it is. */
    twostate predicate ChooseRowEffect(rowNum: nat, editRow: bool, status: Status)
      reads this
    {
      && status == (if |old(cells)| == 0 then NothingToChoose
                    else if old(chosenRow) >= |old(cells)| then IndexError
                    else Done)
      && (status != Done ==> cells == old(cells) && chosenRow == old(chosenRow))
      && (status == Done ==>
            chosenRow == rowNum
            && Repainted(old(cells), cells, old(chosenRow), if rowNum < |old(cells)| then rowNum else |old(cells)| - 1))
      && focused == (if !editRow && status != IndexError then true else old(focused))
    }

    /** `choose_row`. */
    method ChooseRow(rowNum: nat, editRow: bool) returns (status: Status)
      requires Valid()
      modifies this`cells, this`chosenRow, this`focused
      ensures Valid()
      ensures ChooseRowEffect(rowNum, editRow, status)
      ensures old(Highlight(cells, chosenRow)) && rowNum < |cells| ==> Highlight(cells, chosenRow)
      ensures WidthsAgree() == old(WidthsAgree())
    {
      if |cells| > rowNum {
        if chosenRow >= |cells| {
          return IndexError;
        }
        ghost var before := cells;
        Paint(chosenRow, rowNum);
        if Highlight(before, chosenRow) {
          RepaintMovesHighlight(before, cells, chosenRow, rowNum);
        }
        chosenRow := rowNum;
        status := Done;
      } else if |cells| == 0 {
        status := NothingToChoose;
      } else {
        if chosenRow >= |cells| {
          return IndexError;
        }
        Paint(chosenRow, |cells| - 1);
        chosenRow := rowNum;
        status := Done;
      }
      if !editRow {
        focused := true;
      }
    }

    /** Appends one row and its number label (the part `add_row` and
        `add_button_row` share). */
    method AppendRow(row: Row)
      requires Valid() && |row| == cols
      modifies this`cells, this`numberLabels
      ensures Valid()
      ensures cells == old(cells) + [row]
      ensures numberLabels == old(numberLabels) + [NatToString(|cells|)]
    {
      cells := cells + [row];
      numberLabels := numberLabels + [NatToString(RowCount())];
    }

    /** `add_row`: one cell per column from `specs`, each at its header's
        width; then `set_col_width`, and on the first row `choose_row(0, True)`. */
    method AddRow(specs: seq<CellSpec>) returns (status: Status)
      requires Valid()
      modifies this`cells, this`numberLabels, this`headerWidths, this`chosenRow, this`focused
      ensures Valid()
      ensures status == ArityError <==> |specs| != cols
      ensures status == ArityError ==>
        cells == old(cells) && numberLabels == old(numberLabels) && headerWidths == old(headerWidths)
      ensures chosenRow == old(chosenRow) && focused == old(focused)
      ensures status != ArityError ==>
        && |cells| == |old(cells)| + 1
        && numberLabels == old(numberLabels) + [NatToString(|cells|)]
        && headerWidths == ResolvedWidths(colsWidth, headerTexts, eaw, cols)
        && WidthsPropagated(old(cells), cells[..|old(cells)|], old(headerWidths), headerWidths)
        && (|old(cells)| > 0 ==>
              status == Done && forall c :: 0 <= c < cols ==> cells[|cells| - 1][c] == MakeCell(specs[c], headerWidths[c]))
        && (|old(cells)| == 0 ==> (status == Done <==> old(chosenRow) == 0))
        && (|old(cells)| == 0 && status == Done ==>
              forall c :: 0 <= c < cols ==> cells[0][c] == Chosen(MakeCell(specs[c], headerWidths[c])))
        && (|old(cells)| == 0 && status != Done ==>
              status == IndexError && forall c :: 0 <= c < cols ==> cells[0][c] == MakeCell(specs[c], headerWidths[c]))
      ensures old(WidthsAgree()) ==> WidthsAgree()
    {
      if |specs| != cols {
        return ArityError;
      }
      var row: Row := [];
      for num := 0 to cols
        invariant |row| == num
        invariant forall c :: 0 <= c < num ==> row[c] == MakeCell(specs[c], headerWidths[c])
      {
        row := row + [MakeCell(specs[num], headerWidths[num])];
      }
      ghost var h0 := headerWidths;
      AppendRow(row);
      ghost var appended := cells;
      SetColWidth();
      ghost var sized := cells;
      forall c | 0 <= c < cols ensures sized[|sized| - 1][c] == MakeCell(specs[c], headerWidths[c]) {
        assert |appended| - 1 < |appended| && c < |appended[|appended| - 1]|;
      }
      PropagatedPrefix(appended, sized, h0, headerWidths, |old(cells)|);
      assert appended[..|old(cells)|] == old(cells);
      status := Done;
      if |cells| == 1 {
        status := ChooseRow(0, true);
      }
    }

    /** Propagation restricted to the first n rows. */
    static lemma PropagatedPrefix(a: seq<Row>, b: seq<Row>, h0: seq<int>, h1: seq<int>, n: nat)
      requires n <= |a| && WidthsPropagated(a, b, h0, h1)
      ensures WidthsPropagated(a[..n], b[..n], h0, h1)
    {
    }

    /** `add_button_row`: one button cell per text; no header widths, no
        `set_col_width` and no automatic choice. */
    method AddButtonRow(texts: seq<string>) returns (status: Status)
      requires Valid()
      modifies this`cells, this`numberLabels
      ensures Valid()
      ensures status == ArityError <==> |texts| != cols
      ensures status != ArityError ==> status == Done
      ensures status == ArityError ==> cells == old(cells) && numberLabels == old(numberLabels)
      ensures status == Done ==>
        cells == old(cells) + [seq(cols, c requires 0 <= c < cols => ButtonCell(texts[c]))]
        && numberLabels == old(numberLabels) + [NatToString(|cells|)]
    {
      if |texts| != cols {
        return ArityError;
      }
      var row: Row := [];
      for num := 0 to cols
        invariant |row| == num
        invariant forall c :: 0 <= c < num ==> row[c] == ButtonCell(texts[c])
      {
        row := row + [ButtonCell(texts[num])];
      }
      assert row == seq(cols, c requires 0 <= c < cols => ButtonCell(texts[c]));
      AppendRow(row);
      status := Done;
    }

    /** `del_row(number)`: removes the row and the newest number label;
        only when the chosen row was deleted is `choose_row(number, True)`
        called, so `chosen_row` is not shifted when an earlier row goes. */
    method DelRow(number: nat) returns (status: Status)
      requires Valid()
      modifies this`cells, this`numberLabels, this`chosenRow, this`focused
      ensures Valid()
      ensures status == NothingToDelete <==> number >= |old(cells)|
      ensures status == NothingToDelete ==> cells == old(cells) && numberLabels == old(numberLabels)
      ensures chosenRow == old(chosenRow) && focused == old(focused)
      ensures status != NothingToDelete ==> numberLabels == old(numberLabels)[..|old(numberLabels)| - 1]
      ensures status != NothingToDelete && old(chosenRow) != number ==>
        status == Done && cells == Without(old(cells), number)
      ensures status != NothingToDelete && old(chosenRow) == number ==>
        status == (if |old(cells)| == 1 then NothingToChoose else if number == |old(cells)| - 1 then IndexError else Done)
      ensures status != NothingToDelete && old(chosenRow) == number && status != Done ==>
        cells == Without(old(cells), number)
      ensures status != NothingToDelete && old(chosenRow) == number && status == Done ==>
        Repainted(Without(old(cells), number), cells, number, number)
      ensures status != NothingToDelete && old(Highlight(cells, chosenRow)) ==>
        if old(chosenRow) < number then Highlight(cells, chosenRow)
        else if old(chosenRow) > number then Highlight(cells, chosenRow - 1)
        else status == Done ==> Highlight(cells, chosenRow)
      ensures old(WidthsAgree()) ==> WidthsAgree()
    {
      if |cells| <= number {
        return NothingToDelete;
      }
      ghost var before := cells;
      ghost var wasHighlighted := Highlight(cells, chosenRow);
      cells := Without(cells, number);
      NumberTextsPrefix(|cells|);
      numberLabels := numberLabels[..|numberLabels| - 1];
      status := Done;
      if chosenRow == number {
        status := ChooseRow(number, true);
        if status == Done && wasHighlighted {
          DeletedChosenRechosen(before, cells, number);
        }
      } else if wasHighlighted {
        if chosenRow > number {
          DeleteBeforeChosenShiftsHighlight(before, chosenRow, number);
        } else {
          DeleteAfterChosenKeepsHighlight(before, chosenRow, number);
        }
      }
    }

    /** `del_row_all`: `del_row(0)` once per row. It ends with an empty
        grid and never fails: row 0 is re-chosen only while it exists. */
    method DelRowAll()
      requires Valid()
      modifies this`cells, this`numberLabels, this`chosenRow, this`focused
      ensures Valid()
      ensures cells == [] && numberLabels == []
      ensures chosenRow == old(chosenRow) && focused == old(focused)
    {
      var n := |cells|;
      for i := 0 to n
        invariant Valid() && |cells| == n - i
        invariant chosenRow == old(chosenRow) && focused == old(focused)
      {
        var status := DelRow(0);
        assert status == Done || status == NothingToChoose;
      }
    }

    /** The first loop of `sort_list`: the texts of every row. */
    method ReadTexts() returns (data: seq<seq<string>>)
      requires Shaped()
      ensures data == TextRows(cells)
    {
      data := [];
      for r := 0 to |cells|
        invariant |data| == r && forall i :: 0 <= i < r ==> data[i] == RowTexts(cells[i])
      {
        var texts: seq<string> := [];
        for c := 0 to cols
          invariant |texts| == c && forall k :: 0 <= k < c ==> texts[k] == cells[r][k].text
        {
          texts := texts + [cells[r][c].text];
        }
        data := data + [texts];
      }
    }

    /** The last loop of `sort_list`: each cell takes the text at its
        place in `texts`; the cells themselves stay where they are. */
    method WriteTexts(texts: seq<seq<string>>)
      requires Valid() && |texts| == |cells| && forall r :: 0 <= r < |texts| ==> |texts[r]| == cols
      modifies this`cells
      ensures Valid()
      ensures TextRows(cells) == texts
      ensures OnlyTexts(old(cells), cells)
    {
      for r := 0 to |cells|
        invariant Valid() && |cells| == |old(cells)|
        invariant forall i, k :: 0 <= i < |cells| && 0 <= k < cols ==>
          cells[i][k] == if i < r then old(cells[i][k]).(text := texts[i][k]) else old(cells[i][k])
      {
        for c := 0 to cols
          invariant Valid() && |cells| == |old(cells)|
          invariant forall i, k :: 0 <= i < |cells| && 0 <= k < cols ==>
            cells[i][k] == if i < r || (i == r && k < c) then old(cells[i][k]).(text := texts[i][k]) else old(cells[i][k])
        {
          cells := cells[r := cells[r][c := cells[r][c].(text := texts[r][c])]];
        }
      }
      assert forall i :: 0 <= i < |cells| ==> RowTexts(cells[i]) == texts[i];
    }

    /** `sort_list(col, rev)`: reads the rows' texts, sorts them with row
        0's `sort_key` on column `col` (by text when there is none or it
        fails on some row), writes the texts back and marks the column. */
    method SortList(col: nat, rev: bool)
      requires Valid() && col < cols
      modifies this`cells, this`sortMark
      ensures Valid()
      ensures old(cells) == [] ==> cells == old(cells) && sortMark == old(sortMark)
      ensures old(cells) != [] ==>
        sortMark == Some((col, rev))
        && TextRows(cells) == SortRows(TextRows(old(cells)), col, old(cells[0][col].sortKey), rev)
      ensures OnlyTexts(old(cells), cells)
      ensures old(Highlight(cells, chosenRow)) ==> Highlight(cells, chosenRow)
      ensures WidthsAgree() == old(WidthsAgree())
    {
      if |cells| == 0 {
        return;
      }
      var data := ReadTexts();
      var sortKey := cells[0][col].sortKey;
      var sorted := SortRows(data, col, sortKey, rev);
      SortRowsKeepsWidth(data, col, sortKey, rev, cols);
      WriteTexts(sorted);
      sortMark := Some((col, rev));
      OnlyTextsKeepsLook(old(cells), cells, chosenRow);
    }

    /** A click on header `col` (`NewLabel._on_press_button`): sort in the
        label's current direction, then flip it for the next click. */
    method PressHeader(col: nat)
      requires Valid() && col < cols
      modifies this`cells, this`sortMark, this`headerRev
      ensures Valid()
      ensures headerRev == old(headerRev)[col := !old(headerRev[col])]
      ensures old(cells) == [] ==> cells == old(cells) && sortMark == old(sortMark)
      ensures old(cells) != [] ==>
        sortMark == Some((col, old(headerRev[col])))
        && TextRows(cells) == SortRows(TextRows(old(cells)), col, old(cells[0][col].sortKey), old(headerRev[col]))
      ensures OnlyTexts(old(cells), cells)
    {
      SortList(col, headerRev[col]);
      headerRev := headerRev[col := !headerRev[col]];
    }

    /** A press on cell (row, col): `_get_row_index` finds the pressed
        widget among the grid's children and its row is chosen. */
    method PressCell(row: nat, col: nat) returns (status: Status)
      requires Valid() && row < |cells| && col < cols
      modifies this`cells, this`chosenRow, this`focused
      ensures Valid()
      ensures ChooseRowEffect(row, false, status)
    {
      var ids := Identities(|cells|, cols);
      IdentitiesDistinct(|cells|, cols);
      GetRowIndexOfCell(ids, cols, row, col);
      var index := GetRowIndex(Flatten(ids), ids[row][col], cols);
      status := ChooseRow(index.value, false);
    }

    /** `up(n)` of the scroll view: refused before the view has its size
        or on an empty table; otherwise chooses n rows higher, down to 0. */
    method ScrollUp(n: nat, laidOut: bool) returns (status: Option<Status>)
      requires Valid()
      modifies this`cells, this`chosenRow, this`focused
      ensures Valid()
      ensures status.Some? <==> laidOut && |old(cells)| != 0
      ensures status.None? ==> cells == old(cells) && chosenRow == old(chosenRow) && focused == old(focused)
      ensures status.Some? ==> ChooseRowEffect(UpTarget(old(chosenRow), n), false, status.value)
    {
      if laidOut && RowCount() != 0 {
        var target := if chosenRow - n > 0 then chosenRow - n else 0;
        var s := ChooseRow(target, false);
        return Some(s);
      }
      return None;
    }

    /** `down(n)`: chooses n rows lower, up to the last row. */
    method ScrollDown(n: nat, laidOut: bool) returns (status: Option<Status>)
      requires Valid()
      modifies this`cells, this`chosenRow, this`focused
      ensures Valid()
      ensures status.Some? <==> laidOut && |old(cells)| != 0
      ensures status.None? ==> cells == old(cells) && chosenRow == old(chosenRow) && focused == old(focused)
      ensures status.Some? ==> ChooseRowEffect(DownTarget(old(chosenRow), n, |old(cells)|), false, status.value)
    {
      if laidOut && RowCount() != 0 {
        var target := if chosenRow + n < RowCount() - 1 then chosenRow + n else RowCount() - 1;
        var s := ChooseRow(target, false);
        return Some(s);
      }
      return None;
    }

    /** `home`: chooses row 0 of a non-empty table. */
    method ScrollHome() returns (status: Option<Status>)
      requires Valid()
      modifies this`cells, this`chosenRow, this`focused
      ensures Valid()
      ensures status.Some? <==> |old(cells)| != 0
      ensures status.None? ==> cells == old(cells) && chosenRow == old(chosenRow) && focused == old(focused)
      ensures status.Some? ==> ChooseRowEffect(0, false, status.value)
    {
      if RowCount() != 0 {
        var s := ChooseRow(0, false);
        return Some(s);
      }
      return None;
    }

    /** `end`: chooses the last row of a non-empty table. */
    method ScrollEnd() returns (status: Option<Status>)
      requires Valid()
      modifies this`cells, this`chosenRow, this`focused
      ensures Valid()
      ensures status.Some? <==> |old(cells)| != 0
      ensures status.None? ==> cells == old(cells) && chosenRow == old(chosenRow) && focused == old(focused)
      ensures status.Some? ==> ChooseRowEffect(|old(cells)| - 1, false, status.value)
    {
      if RowCount() != 0 {
        var s := ChooseRow(RowCount() - 1, false);
        return Some(s);
      }
      return None;
    }

    /** `pgup(n)`: `up(n)` on a non-empty table. */
    method PageUp(n: nat, laidOut: bool) returns (status: Option<Status>)
      requires Valid()
      modifies this`cells, this`chosenRow, this`focused
      ensures Valid()
      ensures status.Some? <==> laidOut && |old(cells)| != 0
      ensures status.None? ==> cells == old(cells) && chosenRow == old(chosenRow) && focused == old(focused)
      ensures status.Some? ==> ChooseRowEffect(UpTarget(old(chosenRow), n), false, status.value)
    {
      status := None;
      if RowCount() != 0 {
        status := ScrollUp(n, laidOut);
      }
    }

    /** `pgdn(n)`: `down(n)` on a non-empty table. */
    method PageDown(n: nat, laidOut: bool) returns (status: Option<Status>)
      requires Valid()
      modifies this`cells, this`chosenRow, this`focused
      ensures Valid()
      ensures status.Some? <==> laidOut && |old(cells)| != 0
      ensures status.None? ==> cells == old(cells) && chosenRow == old(chosenRow) && focused == old(focused)
      ensures status.Some? ==> ChooseRowEffect(DownTarget(old(chosenRow), n, |old(cells)|), false, status.value)
    {
      status := None;
      if RowCount() != 0 {
        status := ScrollDown(n, laidOut);
      }
    }

    /** `_on_keyboard_down`: without focus nothing happens; otherwise a
        navigation key moves the choice to the row `NavTarget` names. */
    method OnKeyboardDown(code: int, laidOut: bool) returns (status: Option<Status>)
      requires Valid()
      modifies this`cells, this`chosenRow, this`focused
      ensures Valid()
      ensures status.Some? <==>
        old(focused) && KeyNavigation(code).Some?
        && NavTarget(KeyNavigation(code).value, old(chosenRow), |old(cells)|, laidOut).Some?
      ensures status.None? ==> cells == old(cells) && chosenRow == old(chosenRow) && focused == old(focused)
      ensures status.Some? ==>
        ChooseRowEffect(NavTarget(KeyNavigation(code).value, old(chosenRow), |old(cells)|, laidOut).value, false, status.value)
    {
      if !focused {
        return None;
      }
      status := None;
      if code == KeyUp {
        status := ScrollUp(1, laidOut);
      }
      if code == KeyDown {
        status := ScrollDown(1, laidOut);
      }
      if code == KeyPageDown {
        status := PageDown(PageStep, laidOut);
      }
      if code == KeyPageUp {
        status := PageUp(PageStep, laidOut);
      }
      if code == KeyHome {
        status := ScrollHome();
      }
      if code == KeyEnd {
        status := ScrollEnd();
      }
    }
  }

  /** Deleting row n after the chosen one keeps the highlight where it was. */
  lemma DeleteAfterChosenKeepsHighlight(rows: seq<Row>, chosen: nat, n: nat)
    requires Highlight(rows, chosen) && chosen < n < |rows|
    ensures Highlight(Without(rows, n), chosen)
  {
  }

  /** When the chosen row n is deleted and a row n remains, re-choosing it
      leaves exactly that row highlighted. */
  lemma DeletedChosenRechosen(rows: seq<Row>, after: seq<Row>, n: nat)
    requires Highlight(rows, n) && n + 1 < |rows|
    requires Repainted(Without(rows, n), after, n, n)
    ensures Highlight(after, n)
  {
    var rest := Without(rows, n);
    forall r | 0 <= r < |after| && r != n ensures ShowsPlain(after[r]) {
      forall c | 0 <= c < |after[r]| ensures after[r][c].background == after[r][c].colorWidget {
        assert c < |rest[r]|;
        assert ShowsPlain(if r < n then rows[r] else rows[r + 1]);
      }
    }
    forall c | 0 <= c < |after[n]| ensures after[n][c].background == after[n][c].colorClick {
      assert c < |rest[n]|;
    }
  }
}
