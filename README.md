# Kivy table widget: a Dafny model of its bookkeeping

The Kivy table widget is a header strip of column labels, a row-number
panel and a scrollable grid of cells. This project models the state
behind it, with the widgets reduced to the values the table reads and
writes:

- the grid's rows of cells (text, width, normal and chosen colours, the colour shown, content class, optional sort key);
- the texts of the row-number labels;
- `chosen_row` and the focus flag;
- `cols` and `cols_width`;
- the header columns' widths, texts and sort directions, and the column of the sort mark.

The operations are modelled as the code is written, and their contracts
are proved:

- adding rows, with the arity check and the automatic first choice;
- deleting one row or all of them;
- choosing a row and repainting the old and new rows;
- sorting by a column, with the text fallback;
- resolving and propagating column widths, including 'auto' widths counted per Unicode Standard Annex #11;
- `row_count` and the cell-to-row lookup;
- the row each scroll-view movement and navigation key chooses;
- showing and hiding the side panels and setting their sizes.

Modules:

- `Wrappers` (wrappers.dfy): `Option`.
- `EastAsianWidth` (east_asian_width.dfy): the width count behind 'auto' column widths.
- `Decimal` (decimal.dfy): the decimal text of a row number, and its parse.
- `Sorting` (sorting.dfy): Python's string order, a stable sort by key (ascending or descending), and the row order of `sort_list`.
- `Grid` (grid.dfy): cells, the flat child list, `row_count` and `_get_row_index`.
- `Navigation` (navigation.dfy): key codes and the target rows of `up`/`down`/`home`/`end`/`pgup`/`pgdn`.
- `Panels` (panels.dfy): visibility and size setters of `NumberPanel`, `ScrollViewLabel` and `LabelPanel`.
- `TableWidget` (table.dfy): the `Table` class and the selection and width invariants.

Errors the source prints are returned as a `Status`: `ArityError`,
`NothingToDelete` and `NothingToChoose`. An exception that `choose_row`
would raise is returned as `IndexError`, and then the state is left as it
was when the exception was raised.

Some behaviour of the code is easy to misread, and the model keeps it as written:

- `chosen_row` starts at 0 and is not reset when the table empties.
- `choose_row` with an out-of-range row highlights the last row but stores the number as given.
- `del_row` does not shift `chosen_row` when an earlier row is deleted. The highlight is then one row above `chosen_row` (`DeleteBeforeChosenShiftsHighlight`).
- Deleting the chosen row when it is the last of several rows makes `choose_row` raise `IndexError`.
- `add_row` on an empty table whose `chosen_row` is not 0 adds the row, then raises `IndexError` within `choose_row`.
- `add_row` returns nothing.

## Model

| member | source | states |
|---|---|---|
| TableWidget.Table.constructor | table.py:77-92 | the `cols` setter on a fresh table: `cols` header splitters of width 10, `cols` entries of 300 in `cols_width`, no rows, `chosen_row` 0, not focused |
| TableWidget.Table.RowCount | table.py:109-117 | the row count derived from the number of grid children, rounding up, equals the number of rows |
| TableWidget.Table.OnChangeLabelWidth | table.py:243-255 | a no-op when the width or `col` argument is missing or there are no rows; otherwise cell `col` of every row gets the width and every other cell is unchanged |
| TableWidget.Table.SetHeaderWidth | table.py:84-90 | the splitter's width is set; only a change of value reaches `_on_change_label_width`; every cell keeps its header's width |
| TableWidget.Table.SetColWidth | table.py:271-288 | each of the first `cols` header widths becomes the resolved width of its `cols_width` entry; changed widths are propagated to their columns; every cell keeps its header's width |
| TableWidget.Table.SetColsWidth | table.py:99-107 | `cols_width` becomes the list right-padded with 300 up to `cols` entries, then it is applied as by `set_col_width` |
| TableWidget.Table.SetHeaderText | table.py:884-899 | a header's text change re-resolves all widths, so an 'auto' column fits the new text; this assumes the `text` binding of table.py:858 reaches `_on_text`, which depends on the layout file |
| TableWidget.Table.SetChosenRow | table.py:124-126 | `chosen_row` is stored without any repaint |
| TableWidget.Table.Paint | table.py:209-214 | row `from` shows its normal colour and row `to` its chosen colour (the chosen colour wins when they are the same row); all other rows are untouched |
| TableWidget.Table.ChooseRow | table.py:203-233 | on an empty table nothing changes but focus; with a stored chosen row that no longer exists it raises and changes nothing; in range, the old row is repainted normal, row `row_num` chosen and stored; out of range, the last row is painted chosen but `row_num` is stored; focus is taken unless editing; a single highlight moves to the new row |
| TableWidget.Table.AppendRow | table.py:141-145 | the row is appended and a number label showing the new row count is added |
| TableWidget.Table.AddRow | table.py:150-184 | with a wrong number of cells nothing changes; otherwise one row of cells made from the specs at their headers' widths is appended with a label "n"; widths are re-resolved; the first row is chosen without taking focus, or `IndexError` when `chosen_row` was not 0 |
| TableWidget.Table.AddButtonRow | table.py:128-148 | with a wrong number of texts nothing changes; otherwise one row of button cells (width 100, default colours) and one label are appended; no width update and no choice |
| TableWidget.Table.DelRow | table.py:186-198 | with `number >= len(cells)` nothing changes; otherwise exactly that row and the newest label go, the others stay in order; `chosen_row` is never shifted; re-choosing happens only when the chosen row was deleted, and it fails with `IndexError` when that was the last of several rows; the highlight stays on its row |
| TableWidget.Table.DelRowAll | table.py:200-201 | the table ends empty with no labels, `chosen_row` and focus unchanged, and no step fails |
| TableWidget.Table.ReadTexts | table.py:332-338 | the texts of every row, row by row and column by column |
| TableWidget.Table.WriteTexts | table.py:349-351 | every cell takes the text at its place and is otherwise unchanged |
| TableWidget.Table.SortList | table.py:328-376 | a no-op on an empty table; otherwise the rows' texts become their stable sort by row 0's sort key on column `col` (by text when the key is missing or fails on some row), descending when `rev`; only texts change, so widths and the highlight stay; the sort mark is at `col` with direction `rev` |
| TableWidget.Table.PressHeader | table.py:888-895 | a header click sorts in the label's current direction and then flips that direction |
| TableWidget.Table.PressCell | table.py:817-824 | pressing cell (r, c) chooses row r (the row `_get_row_index` finds for that widget), taking focus |
| TableWidget.Table.ScrollUp | table.py:406-412 | refused before layout or on an empty table; otherwise chooses `max(0, chosen_row - n)` with focus |
| TableWidget.Table.ScrollDown | table.py:442-448 | refused before layout or on an empty table; otherwise chooses `min(row_count - 1, chosen_row + n)` with focus |
| TableWidget.Table.ScrollHome | table.py:477-482 | on a non-empty table chooses row 0 |
| TableWidget.Table.ScrollEnd | table.py:484-489 | on a non-empty table chooses the last row |
| TableWidget.Table.PageUp | table.py:491-494 | `up(n)` on a non-empty table |
| TableWidget.Table.PageDown | table.py:496-501 | `down(n)` on a non-empty table |
| TableWidget.Table.OnKeyboardDown | table.py:305-326 | without focus nothing happens; otherwise the key's movement chooses exactly the row `NavTarget` names, and other keys do nothing |
| TableWidget.ResolveWidth | table.py:276-287 | 'default' and '' give 300, a number gives itself, 'auto' gives 10 times the width count of the header text, between 10 and 20 per character |
| TableWidget.NumberTextsAt | table.py:172-178 | label i of a table of n rows shows i + 1, and reads back as i + 1 |
| TableWidget.Without | table.py:190 | deleting row n leaves the earlier rows in place and the later ones one place up |
| TableWidget.RepaintMovesHighlight | table.py:209-219 | repainting from the highlighted row to row `to` leaves exactly row `to` highlighted |
| TableWidget.DeleteBeforeChosenShiftsHighlight | table.py:186-195 | deleting a row before the highlighted one leaves the highlight one row above the unchanged `chosen_row` |
| TableWidget.DeleteAfterChosenKeepsHighlight | table.py:186-195 | deleting a row after the highlighted one keeps the highlight on `chosen_row` |
| TableWidget.DeletedChosenRechosen | table.py:192-195 | deleting the highlighted row n when a row n remains, then re-choosing n, leaves exactly row n highlighted |
| TableWidget.PropagationKeepsWidths | table.py:251-254 | propagating header changes keeps every cell at its header's width |
| TableWidget.OnlyTextsKeepsLook | table.py:349-351 | rewriting texts changes neither the highlight nor any width |
| Grid.FlattenLength | table.py:110-111 | a grid of n uniform rows has n × cols children |
| Grid.FlattenAt | table.py:736-740 | cell (r, c) is child number r × cols + c in the order of addition |
| Grid.RowCountOf | table.py:109-117 | the rounded-up row count: enough rows for every child, and no row more |
| Grid.RowCountOfFull | table.py:109-117 | a full grid of n rows counts n rows |
| Grid.FirstIndex | table.py:736-737 | the first position of the item, or `None` exactly when absent |
| Grid.GetRowIndex | table.py:735-742 | `None` exactly when the item is not a child; otherwise the row holding the item's first occurrence among the children in the order they were added, which is how `reversed(self.children)` walks them |
| Grid.GetRowIndexOfCell | table.py:735-742 | with distinct children, the lookup of cell (r, c) gives row r |
| Grid.IdentitiesDistinct | table.py:817-824 | widgets compared by identity are all different children |
| Navigation.KeyNavigation | table.py:305-326 | codes 273, 274, 280, 281, 278 and 279 select up, down, page up, page down, home and end, and no other code selects anything |
| Navigation.UpTarget | table.py:408-411 | never above `chosen`; `chosen - n` when that is at least 0, else 0 |
| Navigation.DownTarget | table.py:444-447 | always a row of the table; `chosen + n` when that is a row, else the last row |
| Navigation.NavTarget | table.py:406-501 | a movement selects a row exactly when the table has rows and, for the up and down movements, the view is laid out; home gives 0, end the last row |
| Navigation.MovesCompose | table.py:491-501 | a move by k rows equals k single moves, in both directions |
| EastAsianWidth.GetEastAsianWidthCount | table.py:257-265 | the loop computes the width count: 2 per F, W or A character and 1 per other, between the length and twice the length |
| EastAsianWidth.WidthCountBounds | table.py:257-265 | the count lies between `len` and `2 * len`, and equals them for all-narrow and all-double text |
| EastAsianWidth.WidthCountAppend | table.py:257-265 | the count of a concatenation is the sum of the counts |
| EastAsianWidth.AutoWidth | table.py:267-269 | ten pixels per unit: between 10 and 20 per character, a multiple of 10 |
| Decimal.NatToString | table.py:174 | a non-empty string of decimal digits without a leading zero |
| Decimal.ParseNatToString | table.py:174 | the label text reads back as the row count |
| Decimal.NatToStringInjective | table.py:174 | different row counts give different label texts |
| Sorting.LexLessIrreflexive | table.py:347 | no string is less than itself in Python's string order |
| Sorting.LexLessTransitive | table.py:347 | Python's string order is transitive |
| Sorting.LexLessTotal | table.py:347 | of two different strings one is less than the other |
| Sorting.BeforeIsStrictTotalOrder | table.py:340-347 | ascending and descending key orders are strict total orders |
| Sorting.StableSortPermutes | table.py:340-347 | sorting permutes the list |
| Sorting.StableSortSorts | table.py:340-347 | the sorted list is ordered by the key, descending when `rev` |
| Sorting.StableSortIsStable | table.py:340-347 | elements with equal keys keep their relative order, also when `rev` |
| Sorting.SortRowsSpec | table.py:340-347 | the rows of `sort_list` are a permutation, ordered by the chosen key and stable |
| Sorting.SortRowsOrdered | table.py:340-347 | row by row: numbers ascend (descend when `rev`) when every row converts, otherwise texts do |
| Sorting.SortRowsByTextExample | table.py:346-347 | "3.5", "1.2", "2.8" sort by text to "1.2", "2.8", "3.5", and in reverse to "3.5", "2.8", "1.2" |
| Sorting.SortRowsByNumberExample | table.py:340-347 | with a converting key "10" and "9" sort as numbers, in both directions; with no key, or when one row does not convert, they sort as texts |
| Sorting.SortRowsKeepsWidth | table.py:349-351 | sorting keeps every row's number of cells |
| Panels.NumberPanel.constructor | table.py:631-638 | visible, stored width 30, auto width on |
| Panels.NumberPanel.WidthWidget | table.py:677-680 | the stored width, which is the shown width while visible |
| Panels.NumberPanel.SetVisible | table.py:663-675 | shown: the panel and the corner label take the stored width; hidden: both are 0; the stored width is kept |
| Panels.NumberPanel.SetWidthWidget | table.py:682-688 | while visible, the stored width, the panel and the corner label take the width; while hidden nothing changes |
| Panels.NumberPanel.SetAutoWidth | table.py:644-646 | stores the flag |
| Panels.ScrollViewLabel.constructor | table.py:534-540 | visible, and no height stored yet |
| Panels.ScrollViewLabel.SetVisible | table.py:547-554 | shown: the stored height, failing when none was ever stored; hidden: height 0 |
| Panels.LabelPanel.constructor | table.py:564-572 | own stored height 30 |
| Panels.LabelPanel.SetVisible | table.py:596-603 | shows or hides the header strip as `ScrollViewLabel.SetVisible` does |
| Panels.LabelPanel.Visible | table.py:591-594 | the header strip's `_visible` flag: while it is off the synced strip has height 0, while on it has its stored height |
| Panels.LabelPanel.HeightWidget | table.py:605-608 | the strip's height, 0 while hidden |
| Panels.LabelPanel.SetHeightWidget | table.py:610-616 | while the strip is shown it and the panel take and store the height; while hidden nothing changes |

## Left out

- Drawing is not modelled: canvas colours and rectangles, every `_redraw_widget`, and the triangle sort mark, which is kept only as the marked column and direction.
- The float `scroll_y` arithmetic of `up`/`down` and `_update_mouse` are not modelled; the movements model only the chosen row.
- Focus is a flag: `focus_out`'s walk over the widget tree and `_on_focus` are not modelled.
- Host wiring is not modelled: `Window.request_keyboard`, `Clock.schedule_once`, `init_ui`, loading the layout file, and the horizontal scroll sync of `on_scroll_move`. Sizes and header texts from the layout file are parameters.
- Cells are records: the dynamic class creation and `setattr` of arbitrary keyword arguments are not modelled. A cell spec carries only the text, the colours, the sort key and the widget class.
- `unicodedata.east_asian_width` is a parameter of the table, a function from character to class.
- `TableWidget.Table.constructor`: re-assigning `cols` after construction is not modelled. The source then appends a second set of header splitters and widths.
- A table of zero columns is excluded: `row_count` would divide by zero.
- `TableWidget.Table.SortList`: `col` must be a column. The source raises `IndexError` for other values on a non-empty table.
- `Sorting.SortRows`: sort keys are reals. NaN and values of mixed types that Python cannot compare are not modelled; a key that raises is `None`.
- Negative and non-integer arguments are excluded by the `nat` types. This covers row numbers, which Python would index from the end, and `int`/`nat` widths. Non-numeric width strings other than 'default', '' and 'auto' are not modelled.
- `on_select` is an empty hook and is not modelled.
- The number panel's own auto width is not modelled. It is measured from a label's texture in `_redraw_widget`.
- The setters of the widget colours are not modelled.
- `TableWidget.Table.SetColsWidth`: the source pads the caller's own list object in place; the model copies it.
- `TableWidget.Table.SetColWidth`: the guard `len(children) < tcol` can never hold once all columns exist, so the model leaves it out.
- example.py is a demo application and is not part of this model.
