// System.Random as the model sees it: the value a draw yields is a parameter
// (`draw`), and Next maps it into the requested range.

module Rand {

  /** Random.Next(minValue, maxValue): a value in [minValue, maxValue), or
      minValue itself when the two bounds are equal. Random.Next throws when
      minValue > maxValue; every call site checks min <= max first. */
  function Next(min: int, max: int, draw: nat): (r: int)
    requires min <= max
    ensures min == max ==> r == min
    ensures min < max ==> min <= r < max
  {
    if min == max then min else min + draw % (max - min)
  }

  /** Every value of the range is produced by some draw, so taking draws as
      parameters leaves no outcome of Random.Next out. */
  lemma NextCoversRange(min: int, max: int, k: int)
    requires min <= k < max
    ensures exists draw: nat :: Next(min, max, draw) == k
  {
    var d: nat := k - min;
    assert Next(min, max, d) == k;
  }
}
