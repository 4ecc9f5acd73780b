/**
 * The Paeth predictor of png.rb:16-35 (section 6.5 of RFC 2083), applied to
 * each of the three colour components independently.
 */
module Paeth {

  /** The three reconstructed neighbours the predictor can pick from. */
  datatype Neighbour = Left | Top | LeftTop

  function Abs(x: int): nat {
    if x < 0 then -x else x
  }

  /** The value of the chosen neighbour. */
  function Pick(n: Neighbour, left: int, top: int, leftTop: int): int {
    match n
    case Left => left
    case Top => top
    case LeftTop => leftTop
  }

  /**
   * Which neighbour the predictor chooses for one component: the one nearest to
   * `left + top - leftTop`, ties going to left, then top, then left-top.
   */
  function PaethChoice(left: int, top: int, leftTop: int): (n: Neighbour)
    ensures var here := left + top - leftTop;
            var d := Abs(here - Pick(n, left, top, leftTop));
            d <= Abs(here - left) && d <= Abs(here - top) && d <= Abs(here - leftTop)
    ensures var here := left + top - leftTop;
            (n != Left ==> Abs(here - left) > Abs(here - Pick(n, left, top, leftTop))) &&
            (n == LeftTop ==> Abs(here - top) > Abs(here - leftTop))
  {
    var here := left + top - leftTop;
    var hereLeft := Abs(here - left);
    var hereTop := Abs(here - top);
    var hereLeftTop := Abs(here - leftTop);
    if hereLeft <= hereTop && hereLeft <= hereLeftTop then Left
    else if hereTop <= hereLeftTop then Top
    else LeftTop
  }

  /** `paeth_predictor(left_colors, top_colors, left_top_colors)`: `3.times.map`. */
  function Predict(left: seq<int>, top: seq<int>, leftTop: seq<int>): (p: seq<int>)
    requires |left| >= 3 && |top| >= 3 && |leftTop| >= 3
    ensures |p| == 3
    ensures forall i :: 0 <= i < 3 ==> p[i] == Pick(PaethChoice(left[i], top[i], leftTop[i]), left[i], top[i], leftTop[i])
  {
    seq(3, i requires 0 <= i < 3 => Pick(PaethChoice(left[i], top[i], leftTop[i]), left[i], top[i], leftTop[i]))
  }

  /** Each component of the prediction is one of the three neighbours' components. */
  lemma PredictPicksANeighbour(left: seq<int>, top: seq<int>, leftTop: seq<int>, i: nat)
    requires |left| >= 3 && |top| >= 3 && |leftTop| >= 3 && i < 3
    ensures var p := Predict(left, top, leftTop);
            p[i] == left[i] || p[i] == top[i] || p[i] == leftTop[i]
  {
  }

  /** Any neighbour at minimal distance and not beaten by an earlier one is the predictor's choice. */
  lemma {:induction false} ChoiceIsUnique(left: int, top: int, leftTop: int, n: Neighbour)
    requires var here := left + top - leftTop;
             var d := Abs(here - Pick(n, left, top, leftTop));
             d <= Abs(here - left) && d <= Abs(here - top) && d <= Abs(here - leftTop)
    requires var here := left + top - leftTop;
             (n != Left ==> Abs(here - left) > Abs(here - Pick(n, left, top, leftTop))) &&
             (n == LeftTop ==> Abs(here - top) > Abs(here - leftTop))
    ensures n == PaethChoice(left, top, leftTop)
  {
    var here := left + top - leftTop;
    match n
    case Left =>
    case Top =>
      assert Abs(here - left) > Abs(here - top);
    case LeftTop =>
      assert Abs(here - top) > Abs(here - leftTop);
  }

  /** With no row above (top and left-top zero), Paeth predicts the left neighbour: it behaves as Sub. */
  lemma PredictWithoutRowAbove(left: seq<int>, top: seq<int>, leftTop: seq<int>)
    requires |left| >= 3 && |top| >= 3 && |leftTop| >= 3
    requires forall i :: 0 <= i < 3 ==> top[i] == 0 && leftTop[i] == 0
    ensures Predict(left, top, leftTop) == left[..3]
  {
  }

  /** With no column to the left (left and left-top zero), Paeth predicts the upper neighbour: it behaves as Up. */
  lemma PredictWithoutLeftColumn(left: seq<int>, top: seq<int>, leftTop: seq<int>)
    requires |left| >= 3 && |top| >= 3 && |leftTop| >= 3
    requires forall i :: 0 <= i < 3 ==> left[i] == 0 && leftTop[i] == 0
    ensures Predict(left, top, leftTop) == top[..3]
  {
  }
}
