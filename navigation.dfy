/**
 * Keyboard navigation of the scroll view (`ScrollViewTable`): the row
 * each movement chooses, and the key codes that trigger them. The scroll
 * offset the scroll view also moves is not part of this model.
 */
module Navigation {
  import opened Wrappers

  /** The six movements: `up`, `down`, `pgup`, `pgdn`, `home`, `end`. */
  datatype Nav = Up | Down | PageUp | PageDown | Home | End

  /** Rows a page key moves by (the default argument of `pgup`/`pgdn`). */
  const PageStep: nat := 10

  /** Kivy key codes of the navigation keys. */
  const KeyUp: int := 273
  const KeyDown: int := 274
  const KeyPageUp: int := 280
  const KeyPageDown: int := 281
  const KeyHome: int := 278
  const KeyEnd: int := 279

  /** `_on_keyboard_down`: which movement a key code asks for. */
  function KeyNavigation(code: int): (nav: Option<Nav>)
    ensures nav == Some(Up) <==> code == 273
    ensures nav == Some(Down) <==> code == 274
    ensures nav == Some(PageUp) <==> code == 280
    ensures nav == Some(PageDown) <==> code == 281
    ensures nav == Some(Home) <==> code == 278
    ensures nav == Some(End) <==> code == 279
    ensures nav.None? <==> code !in {273, 274, 278, 279, 280, 281}
  {
    if code == KeyUp then Some(Up)
    else if code == KeyDown then Some(Down)
    else if code == KeyPageDown then Some(PageDown)
    else if code == KeyPageUp then Some(PageUp)
    else if code == KeyHome then Some(Home)
    else if code == KeyEnd then Some(End)
    else None
  }

  /** `up(n)`: n rows towards the top, stopping at row 0. */
  function UpTarget(chosen: nat, n: nat): (r: nat)
    ensures r <= chosen
    ensures n <= chosen ==> r == chosen - n
    ensures chosen < n ==> r == 0
  {
    if chosen - n > 0 then chosen - n else 0
  }

  /** `down(n)`: n rows towards the bottom, stopping at the last row. */
  function DownTarget(chosen: nat, n: nat, rowCount: nat): (r: nat)
    requires rowCount > 0
    ensures r < rowCount
    ensures chosen + n < rowCount ==> r == chosen + n
    ensures chosen + n >= rowCount ==> r == rowCount - 1
  {
    if chosen + n < rowCount - 1 then chosen + n else rowCount - 1
  }

  /** The row a movement chooses, when it moves at all: every movement is
      refused on an empty table, and `up`/`down` (also under `pgup`/`pgdn`)
      before the scroll view has its size. */
  function NavTarget(nav: Nav, chosen: nat, rowCount: nat, laidOut: bool): (r: Option<nat>)
    ensures r.Some? <==> rowCount > 0 && (laidOut || nav == Home || nav == End)
    ensures r.Some? && chosen < rowCount ==> r.value < rowCount
    ensures r.Some? && (nav == Up || nav == PageUp) ==> r.value <= chosen
    ensures r.Some? && (nav == Down || nav == PageDown) ==> r.value < rowCount
    ensures r == Some(0) <== rowCount > 0 && nav == Home
    ensures r == Some(rowCount - 1) <== rowCount > 0 && nav == End
  {
    if rowCount == 0 then None
    else match nav
      case Home => Some(0)
      case End => Some(rowCount - 1)
      case Up => if laidOut then Some(UpTarget(chosen, 1)) else None
      case PageUp => if laidOut then Some(UpTarget(chosen, PageStep)) else None
      case Down => if laidOut then Some(DownTarget(chosen, 1, rowCount)) else None
      case PageDown => if laidOut then Some(DownTarget(chosen, PageStep, rowCount)) else None
  }

  /** A move by k rows, such as a page move, equals k single moves. */
  lemma {:induction false} MovesCompose(chosen: nat, rowCount: nat, k: nat)
    requires rowCount > 0 && chosen < rowCount
    ensures Iterate(Up, chosen, rowCount, k) == UpTarget(chosen, k)
    ensures Iterate(Down, chosen, rowCount, k) == DownTarget(chosen, k, rowCount)
  {
    if k > 0 {
      MovesCompose(chosen, rowCount, k - 1);
    }
  }

  /** k single moves of `up` or `down`. */
  function Iterate(nav: Nav, chosen: nat, rowCount: nat, k: nat): nat
    requires rowCount > 0 && (nav == Up || nav == Down)
  {
    if k == 0 then chosen
    else if nav == Up then UpTarget(Iterate(nav, chosen, rowCount, k - 1), 1)
    else DownTarget(Iterate(nav, chosen, rowCount, k - 1), 1, rowCount)
  }
}
