/** The recommendation ladder of src/api/controller/recommendation_controller.py. */
module Recommendation {

  datatype Action = DelayUpgrade1Y | BatteryOrRepair | ConsiderNewDevice | KeepMonitoring

  /** `screen_stats in {"safe", "warning"}`. */
  predicate ScreenOk(screen: string)
    ensures ScreenOk(screen) ==> screen != "SEVERE"
  {
    screen == "safe" || screen == "warning"
  }

  /** Postponing the upgrade and repairing exclude each other. */
  predicate DelayRule(sohFuture1y: real, rulYears: real, screen: string)
    ensures DelayRule(sohFuture1y, rulYears, screen) ==> !RepairRule(sohFuture1y, rulYears, screen)
  {
    sohFuture1y >= 0.8 && rulYears >= 1.0 && ScreenOk(screen)
  }

  /** A repair case is never a replacement case on account of the RUL or the screen. */
  predicate RepairRule(sohFuture1y: real, rulYears: real, screen: string)
    ensures RepairRule(sohFuture1y, rulYears, screen) ==>
      forall sohNow :: sohNow >= 0.7 ==> !ReplaceRule(sohNow, rulYears, screen)
  {
    0.7 <= sohFuture1y < 0.8 && 0.5 <= rulYears <= 1.0 && ScreenOk(screen)
  }

  /** The comparison with "SEVERE" is exact and case-sensitive. */
  predicate ReplaceRule(sohNow: real, rulYears: real, screen: string)
    ensures ScreenOk(screen) ==> (ReplaceRule(sohNow, rulYears, screen) <==> sohNow < 0.7 || rulYears < 0.5)
  {
    sohNow < 0.7 || rulYears < 0.5 || screen == "SEVERE"
  }

  /** `recommend_action`: the first rule that holds decides. */
  function RecommendAction(sohNow: real, sohFuture1y: real, rulYears: real, screen: string): (r: Action)
    ensures r == DelayUpgrade1Y <==> DelayRule(sohFuture1y, rulYears, screen)
    ensures r == BatteryOrRepair <==>
      !DelayRule(sohFuture1y, rulYears, screen) && RepairRule(sohFuture1y, rulYears, screen)
    ensures r == ConsiderNewDevice <==>
      !DelayRule(sohFuture1y, rulYears, screen) && !RepairRule(sohFuture1y, rulYears, screen)
      && ReplaceRule(sohNow, rulYears, screen)
    ensures r == KeepMonitoring <==>
      !DelayRule(sohFuture1y, rulYears, screen) && !RepairRule(sohFuture1y, rulYears, screen)
      && !ReplaceRule(sohNow, rulYears, screen)
  {
    if DelayRule(sohFuture1y, rulYears, screen) then DelayUpgrade1Y
    else if RepairRule(sohFuture1y, rulYears, screen) then BatteryOrRepair
    else if ReplaceRule(sohNow, rulYears, screen) then ConsiderNewDevice
    else KeepMonitoring
  }

  /** The delay rule wins even when the battery is already below 0.7 today. */
  lemma DelayWinsOverLowSoh(sohNow: real, sohFuture1y: real, rulYears: real)
    requires sohNow < 0.7 && sohFuture1y >= 0.8 && rulYears >= 1.0
    ensures RecommendAction(sohNow, sohFuture1y, rulYears, "safe") == DelayUpgrade1Y
    ensures RecommendAction(sohNow, sohFuture1y, rulYears, "warning") == DelayUpgrade1Y
  {
  }

  /** A screen status outside {safe, warning, SEVERE} with a healthy battery ends in monitoring;
      "severe" in lower case is such a status. */
  lemma UnknownScreenKeepsMonitoring(sohNow: real, sohFuture1y: real, rulYears: real, screen: string)
    requires screen != "safe" && screen != "warning" && screen != "SEVERE"
    requires sohNow >= 0.7 && rulYears >= 0.5
    ensures RecommendAction(sohNow, sohFuture1y, rulYears, screen) == KeepMonitoring
  {
  }

  /** A rul of exactly one year with a future SoH in [0.7, 0.8) is a repair case. */
  lemma RepairAtOneYear(sohNow: real, sohFuture1y: real)
    requires 0.7 <= sohFuture1y < 0.8
    ensures RecommendAction(sohNow, sohFuture1y, 1.0, "warning") == BatteryOrRepair
  {
  }
}

/** The carbon-to-distance conversion of src/service/carbon_equivalent_calculation.py. */
module CarbonEquivalent {
  import opened Values

  /** Average car emissions, kg CO2 per km. */
  const CarEmissionKgPerKm: real := 0.192

  /** `carbon_to_car_km`: None gives 0.0; otherwise kilograms over the per-km emission, never
      below 0. */
  function CarbonToCarKm(carbonSavedKg: Option<real>): (km: real)
    ensures km >= 0.0
    ensures carbonSavedKg.None? ==> km == 0.0
    ensures carbonSavedKg.Some? && carbonSavedKg.value >= 0.0 ==> km * CarEmissionKgPerKm == carbonSavedKg.value
    ensures carbonSavedKg.Some? && carbonSavedKg.value < 0.0 ==> km == 0.0
  {
    match carbonSavedKg
    case None => 0.0
    case Some(kg) =>
      var k := kg / CarEmissionKgPerKm;
      if k < 0.0 then 0.0 else k
  }

  /** More carbon saved never means fewer kilometres. */
  lemma CarbonToCarKmMonotone(a: real, b: real)
    requires a <= b
    ensures CarbonToCarKm(Some(a)) <= CarbonToCarKm(Some(b))
  {
    assert a / CarEmissionKgPerKm <= b / CarEmissionKgPerKm by {
      assert b / CarEmissionKgPerKm - a / CarEmissionKgPerKm == (b - a) / CarEmissionKgPerKm;
    }
  }
}

/** The battery expiry date of src/service/expiry_date_calculation.py, with the current time passed
    in as `now` (seconds). */
module ExpiryDate {
  import opened Values

  const SecondsPerDay: real := 86400.0

  /** `compute_expiry_date`: `now` for None, otherwise `now` plus 30 days per month of remaining
      life, negative months counting as 0. */
  function ComputeExpiryDate(rulMonths: Option<real>, now: real): (t: real)
    ensures t >= now
    ensures rulMonths.None? ==> t == now
    ensures rulMonths.Some? && rulMonths.value <= 0.0 ==> t == now
    ensures rulMonths.Some? && rulMonths.value >= 0.0 ==> t - now == rulMonths.value * 30.0 * SecondsPerDay
  {
    match rulMonths
    case None => now
    case Some(m) =>
      var months := if m < 0.0 then 0.0 else m;
      now + months * 30.0 * SecondsPerDay
  }

  /** More remaining life never gives an earlier date. */
  lemma ExpiryMonotone(a: real, b: real, now: real)
    requires a <= b
    ensures ComputeExpiryDate(Some(a), now) <= ComputeExpiryDate(Some(b), now)
  {
    var ma := if a < 0.0 then 0.0 else a;
    var mb := if b < 0.0 then 0.0 else b;
    assert ma <= mb;
    assert mb * 30.0 * SecondsPerDay - ma * 30.0 * SecondsPerDay == (mb - ma) * (30.0 * SecondsPerDay);
  }
}
