/**
 * The fan-speed decision taken once per iteration of the main loop:
 * chek_new_speed and the three-way rule with its one-step hysteresis.
 * All speeds are percentages, all temperatures degrees Celsius.
 */
module Control {

  /** fan_speed_up_lim: the driver ignores assignments above 80%. */
  const FanSpeedUpLim: int := 80
  /** fan_speed_low_lim: the safety minimum the cooling branch never goes below. */
  const FanSpeedLowLim: int := 60
  /** tolerance: degrees above or below the target accepted without correction. */
  const Tolerance: int := 1
  /** The literal cap of the warming branch, written as 80 rather than fan_speed_up_lim. */
  const HotBranchCap: int := 80

  function Min(a: int, b: int): int
  {
    if a <= b then a else b
  }

  function Abs(x: int): int
  {
    if x < 0 then -x else x
  }

  predicate InRange(speed: int)
  {
    FanSpeedLowLim <= speed <= FanSpeedUpLim
  }

  /** chek_new_speed: the value of [low, up] nearest to speed. */
  function ChekNewSpeed(speed: int): (r: int)
    ensures InRange(r)
    ensures InRange(speed) ==> r == speed
    ensures forall v :: InRange(v) ==> Abs(r - speed) <= Abs(v - speed)
  {
    if speed > FanSpeedUpLim then FanSpeedUpLim
    else if speed < FanSpeedLowLim then FanSpeedLowLim
    else speed
  }

  predicate TooHot(target: int, temp: int)
  {
    temp > target + Tolerance
  }

  predicate TooCold(target: int, temp: int)
  {
    temp < target - Tolerance
  }

  /**
   * new_speed as computed from target_temp, current_speed, temp_delta and current_temp.
   * The speed changes only outside the tolerance band, and a change never lands above 80.
   */
  function NewSpeed(target: int, currentSpeed: int, tempDelta: int, currentTemp: int): (r: int)
    ensures r != currentSpeed ==> r <= FanSpeedUpLim
    ensures r != currentSpeed ==> TooHot(target, currentTemp) || TooCold(target, currentTemp)
  {
    if TooHot(target, currentTemp) then
      if tempDelta > -1 then
        var raised := currentSpeed + (currentTemp - target);
        if raised > HotBranchCap then HotBranchCap else raised
      else currentSpeed
    else if TooCold(target, currentTemp) then
      if tempDelta < 1 then ChekNewSpeed(currentSpeed - (target - currentTemp))
      else currentSpeed
    else currentSpeed
  }

  // ---------------------------------------------------------------- chek_new_speed

  lemma ChekNewSpeedIdempotent(speed: int)
    ensures ChekNewSpeed(ChekNewSpeed(speed)) == ChekNewSpeed(speed)
  {
  }

  lemma ChekNewSpeedMonotone(a: int, b: int)
    requires a <= b
    ensures ChekNewSpeed(a) <= ChekNewSpeed(b)
  {
  }

  // ---------------------------------------------------------------- the decision rule

  /** Inside the band target-1 .. target+1 the speed is left alone. */
  lemma InBandUnchanged(target: int, currentSpeed: int, tempDelta: int, currentTemp: int)
    requires target - Tolerance <= currentTemp <= target + Tolerance
    ensures NewSpeed(target, currentSpeed, tempDelta, currentTemp) == currentSpeed
  {
  }

  /** Too hot but already cooling: no correction (hysteresis). */
  lemma HotCoolingUnchanged(target: int, currentSpeed: int, tempDelta: int, currentTemp: int)
    requires TooHot(target, currentTemp) && tempDelta <= -1
    ensures NewSpeed(target, currentSpeed, tempDelta, currentTemp) == currentSpeed
  {
  }

  /** Too hot and not cooling: raised by the excess over the target, capped at 80, never above it. */
  lemma HotRaised(target: int, currentSpeed: int, tempDelta: int, currentTemp: int)
    requires TooHot(target, currentTemp) && tempDelta > -1
    ensures NewSpeed(target, currentSpeed, tempDelta, currentTemp)
            == Min(currentSpeed + (currentTemp - target), HotBranchCap)
    ensures NewSpeed(target, currentSpeed, tempDelta, currentTemp) <= FanSpeedUpLim
  {
  }

  /** Too cold but already warming: no correction (hysteresis). */
  lemma ColdWarmingUnchanged(target: int, currentSpeed: int, tempDelta: int, currentTemp: int)
    requires TooCold(target, currentTemp) && tempDelta >= 1
    ensures NewSpeed(target, currentSpeed, tempDelta, currentTemp) == currentSpeed
  {
  }

  /** Too cold and not warming: lowered by the deficit, then clamped into [60, 80]. */
  lemma ColdLowered(target: int, currentSpeed: int, tempDelta: int, currentTemp: int)
    requires TooCold(target, currentTemp) && tempDelta < 1
    ensures NewSpeed(target, currentSpeed, tempDelta, currentTemp)
            == ChekNewSpeed(currentSpeed - (target - currentTemp))
    ensures InRange(NewSpeed(target, currentSpeed, tempDelta, currentTemp))
  {
  }

  /** A speed in [60, 80] stays in [60, 80], whichever branch is taken. */
  lemma RangePreserved(target: int, currentSpeed: int, tempDelta: int, currentTemp: int)
    requires InRange(currentSpeed)
    ensures InRange(NewSpeed(target, currentSpeed, tempDelta, currentTemp))
  {
  }

  /**
   * Corrections go the right way: when too hot the speed does not drop (for a
   * speed not above 80), when too cold it does not rise (for a speed not below 60).
   */
  lemma CorrectiveDirection(target: int, currentSpeed: int, tempDelta: int, currentTemp: int)
    ensures TooHot(target, currentTemp) && currentSpeed <= FanSpeedUpLim
            ==> NewSpeed(target, currentSpeed, tempDelta, currentTemp) >= currentSpeed
    ensures TooCold(target, currentTemp) && currentSpeed >= FanSpeedLowLim
            ==> NewSpeed(target, currentSpeed, tempDelta, currentTemp) <= currentSpeed
  {
  }

  /** The warming branch's cap lowers a confirmed speed that is already above 80. */
  lemma HotCapLowersHighSpeed(target: int, currentSpeed: int, tempDelta: int, currentTemp: int)
    requires TooHot(target, currentTemp) && tempDelta > -1 && currentSpeed > HotBranchCap
    ensures NewSpeed(target, currentSpeed, tempDelta, currentTemp) == HotBranchCap < currentSpeed
  {
  }

  /** The warming branch has no floor: from 40% a 2-degree excess asks for 42%, below fan_speed_low_lim. */
  lemma HotBranchHasNoFloor()
    ensures NewSpeed(70, 40, 0, 72) == 42 < FanSpeedLowLim
  {
  }

  /** Target 70, speed 70, previous 70, now 75: delta 5, raised to 75. */
  lemma ScenarioRising()
    ensures NewSpeed(70, 70, 75 - 70, 75) == 75
  {
  }

  /** Target 70, speed 75, previous 75, now 62: delta -13, lowered to 67. */
  lemma ScenarioFalling()
    ensures NewSpeed(70, 75, 62 - 75, 62) == 67
  {
  }

  /** Target 70, speed 65, previous 80, now 72: too hot but cooling, left at 65. */
  lemma ScenarioAlreadyCooling()
    ensures NewSpeed(70, 65, 72 - 80, 72) == 65
  {
  }
}
