/**
 * getRange: the half-open window [left, right) of pairings whose second players
 * are reshuffled around a conflicting position.
 *
 * The source is Python 2, where `/` on integers is floor division. Every division
 * here has the positive divisor 2, for which Dafny's Euclidean `/` yields the same
 * quotient, negative dividends included.
 */
module Window {

  datatype Span = Span(left: int, right: int)

  function Min(a: int, b: int): int { if a <= b then a else b }

  function Max(a: int, b: int): int { if a <= b then b else a }

  function GetRange(center: int, width: int, maxIndex: int): (w: Span)
    ensures w.left >= 0
    ensures w.right <= maxIndex
  {
    var left := center - width / 2;
    // A window clamped on the left gets the lost width added before the right edge is computed.
    var width' := if left < 0 then width - left else width;
    var left' := if left < 0 then 0 else left;
    var right := center + width' / 2;
    Span(left', if right > maxIndex then maxIndex else right)
  }

  /**
   * What each clamp does. Away from both ends the window is `width/2` either side of
   * the centre. Cut on the right only, it ends at maxIndex and its left edge does not
   * move. Cut on the left, it starts at 0 and its right edge is pushed out by half of
   * what the left edge lost, so it never ends before the uncompensated edge would.
   */
  lemma GetRangeClamps(center: int, width: int, maxIndex: int)
    requires center >= 0 && width >= 0
    ensures width / 2 <= center && center + width / 2 <= maxIndex ==>
            GetRange(center, width, maxIndex) == Span(center - width / 2, center + width / 2)
    ensures width / 2 <= center && center + width / 2 > maxIndex ==>
            GetRange(center, width, maxIndex) == Span(center - width / 2, maxIndex)
    ensures center < width / 2 ==>
            && GetRange(center, width, maxIndex).left == 0
            && GetRange(center, width, maxIndex).right == Min(maxIndex, (width + width / 2 + center) / 2)
            && GetRange(center, width, maxIndex).right >= Min(maxIndex, center + width / 2)
  {
    if center < width / 2 {
      assert center + (width + width / 2 - center) / 2 == (width + width / 2 + center) / 2;
    }
  }

  /** The window always holds the position it is centred on, so a shuffle of it reaches the conflict. */
  lemma GetRangeContainsCenter(center: int, width: int, maxIndex: int)
    requires 0 <= center < maxIndex && width >= 2
    ensures GetRange(center, width, maxIndex).left <= center < GetRange(center, width, maxIndex).right
  {
  }

  /**
   * The window is never wider than asked for. Away from both ends an even width is
   * met exactly; clamped on the left, the compensation restores only part of it.
   */
  lemma GetRangeWidth(center: int, width: int, maxIndex: int)
    requires center >= 0 && width >= 0
    ensures GetRange(center, width, maxIndex).right - GetRange(center, width, maxIndex).left <= width
    ensures width % 2 == 0 && width / 2 <= center && center + width / 2 <= maxIndex ==>
            GetRange(center, width, maxIndex).right - GetRange(center, width, maxIndex).left == width
    ensures center < width / 2 && (width + width / 2 + center) / 2 <= maxIndex ==>
            GetRange(center, width, maxIndex).right - GetRange(center, width, maxIndex).left
            == (width + width / 2 + center) / 2
  {
    var w := GetRange(center, width, maxIndex);
    if center < width / 2 {
      assert center + (width + width / 2 - center) / 2 == (width + width / 2 + center) / 2;
      assert (width + width / 2 + center) / 2 < width;
    }
  }

  /** The two boundary cases: a left clamp compensated by one, a right clamp not compensated. */
  lemma GetRangeExamples()
    ensures GetRange(0, 4, 10) == Span(0, 3)
    ensures GetRange(9, 4, 10) == Span(7, 10)
    ensures GetRange(5, 4, 10) == Span(3, 7)
  {
  }
}
