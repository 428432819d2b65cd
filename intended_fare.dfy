/**
  The fare rule the repository evidently intends, read from its tests and its
  own constants: the rate applies to fractional hours (the comments at
  FareCalculatorServiceTest.java:92-94 and :126-127: 45 minutes give 3/4 of the
  fare, 24 hours give 24 hourly fares), stays under thirty minutes are free
  (the tests at FareCalculatorServiceTest.java:139, :153 and :167 and the
  `30 * 60` at FareCalculatorService.java:21), a discount ticket pays 5% less
  (the `5 / 100` at FareCalculatorService.java:43), and a null exit time is
  rejected by the guard's IllegalArgumentException
  (FareCalculatorService.java:12-13). The lemmas at the end say where the
  service's rule and this one agree and where they part.
 */
module IntendedRule {
  import opened Parking
  import opened FareCalculatorService
  import opened FareProperties

  /** Thirty minutes, in seconds. */
  const FreeSeconds: int := 30 * 60

  /** The loyalty discount rate, five percent as a fraction. */
  const DiscountRate: real := 5.0 / 100.0

  /** The elapsed time in hours, fractions included. */
  function ElapsedHours(inTime: int, outTime: int): (h: real)
    requires inTime <= outTime
    ensures h >= 0.0
    ensures h * 3600.0 == (outTime - inTime) as real
  {
    (outTime - inTime) as real / 3600.0
  }

  /** The fare as intended: the price written, or the exception raised. */
  function IntendedFare(rates: Rates, inTime: int, outTime: Option<int>,
                        parkingType: Option<ParkingType>, discount: bool): (r: Result<real>)
    ensures r.Failure? <==>
              || outTime.None?
              || outTime.value < inTime
              || (outTime.value - inTime >= FreeSeconds
                  && parkingType != Some(CAR) && parkingType != Some(BIKE))
    ensures r.Success? && rates.NonNegative() ==> r.value >= 0.0
  {
    if outTime.None? || outTime.value < inTime then
      Failure(IllegalArgumentException(IncorrectOutTime))
    else if outTime.value - inTime < FreeSeconds then
      Success(0.0)
    else
      match HourlyRate(rates, parkingType)
      case Success(rate) =>
        var price := ElapsedHours(inTime, outTime.value) * rate;
        Success(if discount then price * (1.0 - DiscountRate) else price)
      case Failure(e) => Failure(e)
  }

  /** calculateFare with the intended rule: writes the intended price, or leaves
      the price as it was when an exception is raised. */
  method CalculateIntendedFare(rates: Rates, ticket: Ticket) returns (outcome: Outcome)
    modifies ticket`price
    ensures match IntendedFare(rates, ticket.inTime, ticket.outTime, ticket.parkingType, ticket.discount)
            case Success(p) => outcome == Pass && ticket.price == p
            case Failure(e) => outcome == Fail(e) && ticket.price == old(ticket.price)
  {
    if ticket.outTime.None? || ticket.outTime.value < ticket.inTime {
      return Fail(IllegalArgumentException(IncorrectOutTime));
    }
    var elapsed := ticket.outTime.value - ticket.inTime;
    if elapsed < FreeSeconds {
      ticket.price := 0.0;
      return Pass;
    }
    var rate := HourlyRate(rates, ticket.parkingType);
    if rate.Failure? {
      return Fail(rate.error);
    }
    var price := elapsed as real / 3600.0 * rate.value;
    if ticket.discount {
      price := price * (1.0 - DiscountRate);
    }
    ticket.price := price;
    return Pass;
  }

  /** A null exit time is rejected as an incorrect exit time. */
  lemma IntendedNullOutTimeRejected(rates: Rates, inTime: int,
                                    parkingType: Option<ParkingType>, discount: bool)
    ensures IntendedFare(rates, inTime, None, parkingType, discount)
            == Failure(IllegalArgumentException(IncorrectOutTime))
  {
  }

  /** From thirty minutes on, a priced ticket pays the elapsed hours, fractions
      included, times the rate, less 5% with a discount; with a positive rate
      that is a positive price. */
  lemma {:induction false} IntendedChargedProportionally(rates: Rates, inTime: int, outTime: int,
                                                         t: ParkingType, discount: bool)
    requires Priced(t)
    requires outTime - inTime >= FreeSeconds
    ensures IntendedFare(rates, inTime, Some(outTime), Some(t), discount).Success?
    ensures IntendedFare(rates, inTime, Some(outTime), Some(t), discount).value
            == ElapsedHours(inTime, outTime) * RateOf(rates, t) * (if discount then 0.95 else 1.0)
    ensures RateOf(rates, t) > 0.0 ==> IntendedFare(rates, inTime, Some(outTime), Some(t), discount).value > 0.0
  {
    var h := ElapsedHours(inTime, outTime);
    var r := RateOf(rates, t);
    if discount {
      assert 1.0 - DiscountRate == 0.95;
    }
    assert h > 0.0;
    if r > 0.0 {
      assert h * r > 0.0;
    }
  }

  /** With a positive rate, a priced ticket is free exactly when its stay is
      under thirty minutes; thirty minutes exactly are charged. */
  lemma {:induction false} IntendedFreeIffUnderThirtyMinutes(rates: Rates, inTime: int, outTime: int,
                                                             t: ParkingType, discount: bool)
    requires Priced(t) && RateOf(rates, t) > 0.0 && inTime <= outTime
    ensures IntendedFare(rates, inTime, Some(outTime), Some(t), discount) == Success(0.0)
            <==> outTime - inTime < FreeSeconds
  {
    if outTime - inTime >= FreeSeconds {
      IntendedChargedProportionally(rates, inTime, outTime, t, discount);
    }
  }

  /** Thirty minutes exactly cost half the hourly rate. */
  lemma IntendedThirtyMinutes(rates: Rates, inTime: int, t: ParkingType)
    requires Priced(t)
    ensures IntendedFare(rates, inTime, Some(inTime + 1800), Some(t), false)
            == Success(0.5 * RateOf(rates, t))
  {
  }

  /** One hour costs one hourly rate. */
  lemma IntendedOneHourCharged(rates: Rates, inTime: int, t: ParkingType)
    requires Priced(t)
    ensures IntendedFare(rates, inTime, Some(inTime + 3600), Some(t), false)
            == Success(RateOf(rates, t))
  {
  }

  /** Forty-five minutes cost three quarters of the hourly rate, and 95% of
      that with a discount. */
  lemma IntendedFortyFiveMinutes(rates: Rates, inTime: int, t: ParkingType)
    requires Priced(t)
    ensures IntendedFare(rates, inTime, Some(inTime + 2700), Some(t), false)
            == Success(0.75 * RateOf(rates, t))
    ensures IntendedFare(rates, inTime, Some(inTime + 2700), Some(t), true)
            == Success(0.75 * RateOf(rates, t) * 0.95)
  {
    IntendedChargedProportionally(rates, inTime, inTime + 2700, t, false);
    IntendedChargedProportionally(rates, inTime, inTime + 2700, t, true);
    assert ElapsedHours(inTime, inTime + 2700) == 0.75;
  }

  /** Twenty-four hours in a CAR cost 24 hourly rates: no daily cap. */
  lemma IntendedTwentyFourHours(rates: Rates, inTime: int)
    ensures IntendedFare(rates, inTime, Some(inTime + 24 * 3600), Some(CAR), false)
            == Success(24.0 * rates.carRatePerHour)
  {
    assert ElapsedHours(inTime, inTime + 24 * 3600) == 24.0;
  }

  /** A discount ticket pays 95% of what the same stay costs without one. */
  lemma IntendedDiscountApplied(rates: Rates, inTime: int, outTime: int, t: ParkingType)
    requires Priced(t) && inTime <= outTime
    ensures IntendedFare(rates, inTime, Some(outTime), Some(t), true).Success?
    ensures IntendedFare(rates, inTime, Some(outTime), Some(t), true).value
            == 0.95 * IntendedFare(rates, inTime, Some(outTime), Some(t), false).value
  {
  }

  /** Under thirty minutes both rules write 0, whatever the type and discount. */
  lemma {:induction false} RulesAgreeUnderThirtyMinutes(rates: Rates, inTime: int, outTime: int,
                                                        parkingType: Option<ParkingType>, discount: bool)
    requires 0 <= outTime - inTime < FreeSeconds
    ensures ComputeFare(rates, inTime, Some(outTime), parkingType, discount) == Success(0.0)
    ensures IntendedFare(rates, inTime, Some(outTime), parkingType, discount) == Success(0.0)
  {
    FreeBelowThreshold(rates, inTime, outTime, parkingType, discount);
  }

  /** From thirty minutes up to the service's 1800-hour threshold, the service
      writes 0 where the intended rule charges a positive price. */
  lemma {:induction false} AsWrittenFreeWhereIntendedCharges(rates: Rates, inTime: int, outTime: int,
                                                             t: ParkingType, discount: bool)
    requires Priced(t) && RateOf(rates, t) > 0.0
    requires FreeSeconds <= outTime - inTime < FreeThreshold * SecondsPerHour
    ensures ComputeFare(rates, inTime, Some(outTime), Some(t), discount) == Success(0.0)
    ensures IntendedFare(rates, inTime, Some(outTime), Some(t), discount).Success?
    ensures IntendedFare(rates, inTime, Some(outTime), Some(t), discount).value > 0.0
  {
    FreeBelowThreshold(rates, inTime, outTime, Some(t), discount);
    IntendedChargedProportionally(rates, inTime, outTime, t, discount);
  }

  /** Past the service's threshold and without a discount, truncating to whole
      hours never charges more than the intended price, and charges exactly it
      only when the stay is a whole number of hours. */
  lemma {:induction false} TruncationNeverOvercharges(rates: Rates, inTime: int, outTime: int,
                                                      t: ParkingType)
    requires Priced(t) && RateOf(rates, t) >= 0.0
    requires outTime - inTime >= FreeThreshold * SecondsPerHour
    ensures ComputeFare(rates, inTime, Some(outTime), Some(t), false).Success?
    ensures IntendedFare(rates, inTime, Some(outTime), Some(t), false).Success?
    ensures ComputeFare(rates, inTime, Some(outTime), Some(t), false).value
            <= IntendedFare(rates, inTime, Some(outTime), Some(t), false).value
    ensures RateOf(rates, t) > 0.0 ==>
              (ComputeFare(rates, inTime, Some(outTime), Some(t), false).value
               == IntendedFare(rates, inTime, Some(outTime), Some(t), false).value
               <==> (outTime - inTime) % SecondsPerHour == 0)
  {
    var d := DurationHours(inTime, outTime);
    var h := ElapsedHours(inTime, outTime);
    assert d >= FreeThreshold by {
      assert (d + 1) * SecondsPerHour > FreeThreshold * SecondsPerHour;
    }
    ChargedPerWholeHour(rates, inTime, outTime, t, false);
    IntendedChargedProportionally(rates, inTime, outTime, t, false);
    assert d as real <= h;
    assert d as real == h <==> (outTime - inTime) % SecondsPerHour == 0;
    WholeHoursScaled(ComputeFare(rates, inTime, Some(outTime), Some(t), false).value,
                     IntendedFare(rates, inTime, Some(outTime), Some(t), false).value,
                     d as real, h, RateOf(rates, t));
  }

  /** Past the service's threshold, a discount ticket always pays the service
      more than the intended price: the lost 5% outweighs the dropped fraction
      of an hour. */
  lemma {:induction false} DiscountedTicketsOvercharged(rates: Rates, inTime: int, outTime: int,
                                                        t: ParkingType)
    requires Priced(t) && RateOf(rates, t) > 0.0
    requires outTime - inTime >= FreeThreshold * SecondsPerHour
    ensures ComputeFare(rates, inTime, Some(outTime), Some(t), true).Success?
    ensures IntendedFare(rates, inTime, Some(outTime), Some(t), true).Success?
    ensures ComputeFare(rates, inTime, Some(outTime), Some(t), true).value
            > IntendedFare(rates, inTime, Some(outTime), Some(t), true).value
  {
    var d := DurationHours(inTime, outTime);
    var h := ElapsedHours(inTime, outTime);
    assert d >= FreeThreshold by {
      assert (d + 1) * SecondsPerHour > FreeThreshold * SecondsPerHour;
    }
    ChargedPerWholeHour(rates, inTime, outTime, t, true);
    IntendedChargedProportionally(rates, inTime, outTime, t, true);
    DiscountedHoursScaled(ComputeFare(rates, inTime, Some(outTime), Some(t), true).value,
                          IntendedFare(rates, inTime, Some(outTime), Some(t), true).value,
                          d as real, h, RateOf(rates, t));
  }

  /** d whole hours out of h hours, priced at r: cv, the whole-hour price, is
      never above iv, the fractional one, and equal to it at a positive rate
      only when no fraction was dropped. */
  lemma WholeHoursScaled(cv: real, iv: real, d: real, h: real, r: real)
    requires cv == d * r && iv == h * r
    requires d <= h && r >= 0.0
    ensures cv <= iv
    ensures r > 0.0 ==> (cv == iv <==> d == h)
  {
  }

  /** Past 19 whole hours, 95% of less than d + 1 hours is less than d hours
      (0.95 h < 0.95 d + 0.95 <= d), so at a positive rate the discounted
      price iv is below the whole-hour price cv. */
  lemma DiscountedHoursScaled(cv: real, iv: real, d: real, h: real, r: real)
    requires cv == d * r && iv == h * r * 0.95
    requires d >= 19.0 && h < d + 1.0 && r > 0.0
    ensures iv < cv
  {
    var x := h * 0.95;
    assert x < d;
    assert d * r - x * r == (d - x) * r;
  }
}
