/** The integer helpers of `GMath` the codec and its utilities use. */
module GMath {

  /** The smaller of two values; `v2` when they are equal. */
  function Min(v1: int, v2: int): (r: int)
    ensures r <= v1 && r <= v2
    ensures r == v1 || r == v2
  {
    if v1 < v2 then v1 else v2
  }

  /** The larger of two values; `v2` when they are equal. */
  function Max(v1: int, v2: int): (r: int)
    ensures r >= v1 && r >= v2
    ensures r == v1 || r == v2
  {
    if v1 > v2 then v1 else v2
  }

  /** `value` limited to `[low, high]`: the bound it lies beyond, or itself. */
  function Clamp(value: int, low: int, high: int): (r: int)
    ensures low <= high ==> low <= r <= high
    ensures low <= value <= high ==> r == value
    ensures r == value || r == low || r == high
  {
    if value < low then low
    else if value > high then high
    else value
  }

  /** On a well-formed range, clamping is `Max(low, Min(value, high))` and
      clamping twice changes nothing. */
  lemma ClampByMinMax(value: int, low: int, high: int)
    requires low <= high
    ensures Clamp(value, low, high) == Max(low, Min(value, high))
    ensures Clamp(Clamp(value, low, high), low, high) == Clamp(value, low, high)
  {
  }
}
