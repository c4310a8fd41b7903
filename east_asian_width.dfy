/**
 * Column widths of text as the table measures them for 'auto' column
 * widths: every character of East Asian Width class F, W or A (Unicode
 * Standard Annex #11) counts two units, every other character one, and a
 * unit is ten pixels.
 */
module EastAsianWidth {

  /** The six East Asian Width property values of Unicode Standard Annex #11. */
  datatype EawClass = Fullwidth | Halfwidth | Wide | Narrow | Ambiguous | Neutral

  /** Classes F, W and A are drawn double width. */
  predicate IsDouble(k: EawClass)
  {
    k == Fullwidth || k == Wide || k == Ambiguous
  }

  function CharUnits(k: EawClass): nat
  {
    if IsDouble(k) then 2 else 1
  }

  /** The abstract value of the counting loop: the width units of `text`,
      `eaw` being the character classification the host supplies. */
  function WidthCount(text: string, eaw: char -> EawClass): nat
  {
    if text == [] then 0
    else WidthCount(text[..|text| - 1], eaw) + CharUnits(eaw(text[|text| - 1]))
  }

  /** The counting loop of `get_east_asian_width_count`. */
  method GetEastAsianWidthCount(text: string, eaw: char -> EawClass) returns (count: nat)
    ensures count == WidthCount(text, eaw)
    ensures |text| <= count <= 2 * |text|
  {
    count := 0;
    for i := 0 to |text|
      invariant count == WidthCount(text[..i], eaw)
      invariant i <= count <= 2 * i
    {
      assert text[..i + 1][..i] == text[..i];
      if IsDouble(eaw(text[i])) {
        count := count + 2;
      } else {
        count := count + 1;
      }
    }
    assert text[..|text|] == text;
  }

  /** Counting text of one character class only. */
  lemma {:induction false} WidthCountBounds(text: string, eaw: char -> EawClass)
    ensures |text| <= WidthCount(text, eaw) <= 2 * |text|
    ensures (forall i :: 0 <= i < |text| ==> !IsDouble(eaw(text[i]))) ==> WidthCount(text, eaw) == |text|
    ensures (forall i :: 0 <= i < |text| ==> IsDouble(eaw(text[i]))) ==> WidthCount(text, eaw) == 2 * |text|
  {
    if text != [] {
      var init := text[..|text| - 1];
      WidthCountBounds(init, eaw);
      assert forall i :: 0 <= i < |init| ==> init[i] == text[i];
    }
  }

  /** The count is a fold: it distributes over concatenation. */
  lemma {:induction false} WidthCountAppend(a: string, b: string, eaw: char -> EawClass)
    ensures WidthCount(a + b, eaw) == WidthCount(a, eaw) + WidthCount(b, eaw)
    decreases |b|
  {
    if b == [] {
      assert a + b == a;
    } else {
      var b' := b[..|b| - 1];
      assert (a + b)[..|a + b| - 1] == a + b';
      WidthCountAppend(a, b', eaw);
    }
  }

  /** `get_auto_width`: ten pixels per width unit. */
  function AutoWidth(text: string, eaw: char -> EawClass): (w: int)
    ensures 10 * |text| <= w <= 20 * |text|
    ensures w % 10 == 0
  {
    WidthCountBounds(text, eaw);
    WidthCount(text, eaw) * 10
  }
}
