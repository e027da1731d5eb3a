/** The figures of the "remaining plan" display (updateRemainingTime). */
module Budget {
  import Arith

  datatype HoursMinutes = HoursMinutes(hours: int, minutes: int)

  /**
   * Splits the available minutes with `Math.floor(a / 60)` for the hours and
   * JavaScript's truncating `a % 60` for the minutes.
   */
  function RemainingPlan(available: int): (hm: HoursMinutes)
    ensures hm.hours * 60 <= available < hm.hours * 60 + 60
    ensures -60 < hm.minutes < 60
    ensures available >= 0 ==> 0 <= hm.minutes && hm.hours * 60 + hm.minutes == available
  {
    HoursMinutes(available / 60, Arith.JsRem60(available))
  }

  /**
   * The two figures add back up to the available minutes exactly when the
   * budget is not overdrawn or is overdrawn by whole hours; otherwise the
   * display shows one hour too many (floor) beside a negative minute count.
   */
  lemma RemainingPlanAddsUp(available: int)
    ensures var hm := RemainingPlan(available);
      (hm.hours * 60 + hm.minutes == available) <==> (available >= 0 || available % 60 == 0)
    ensures var hm := RemainingPlan(available);
      available < 0 && available % 60 != 0 ==> hm.hours * 60 + hm.minutes == available - 60
  {
    var hm := RemainingPlan(available);
    if available < 0 {
      var q := (-available) / 60;
      var m := (-available) % 60;
      assert -available == q * 60 + m;
      if m == 0 {
        assert available == -q * 60;
        assert available / 60 == -q;
      } else {
        assert available == (-q - 1) * 60 + (60 - m);
        assert available / 60 == -q - 1;
        assert available % 60 == 60 - m;
      }
    }
  }
}
