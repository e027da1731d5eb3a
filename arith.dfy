/** JavaScript arithmetic the planner uses, stated on unbounded integers. */
module Arith {

  const MsPerMinute := 60000

  /**
   * `Math.round(ms / 1000 / 60)`: the whole number of minutes nearest to `ms`
   * milliseconds, a half minute rounding up (towards +infinity, as `Math.round`
   * does, also for negative spans).
   */
  function RoundToMinutes(ms: int): (r: int)
    ensures r * MsPerMinute - MsPerMinute / 2 <= ms < r * MsPerMinute + MsPerMinute / 2
  {
    (ms + MsPerMinute / 2) / MsPerMinute
  }

  /** Rounding a span is exact on whole minutes and never off by more than half a minute. */
  lemma RoundToMinutesUnique(ms: int, m: int)
    requires m * MsPerMinute - MsPerMinute / 2 <= ms < m * MsPerMinute + MsPerMinute / 2
    ensures RoundToMinutes(ms) == m
  {
    var r := RoundToMinutes(ms);
    assert (r - m) * MsPerMinute < MsPerMinute && (m - r) * MsPerMinute < MsPerMinute;
  }

  /** JavaScript `a % 60`: truncating, so the remainder has the sign of `a`. */
  function JsRem60(a: int): (r: int)
    ensures -60 < r < 60
    ensures (a - r) % 60 == 0
    ensures a >= 0 ==> r >= 0
    ensures a <= 0 ==> r <= 0
  {
    if a >= 0 then a % 60 else -((-a) % 60)
  }
}
