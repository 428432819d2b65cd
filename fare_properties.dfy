/**
  What the fare rule, as the service computes it, does with every ticket: its
  error cases, the free branch, the charged branch, and how the price grows
  with the length of the stay.
 */
module FareProperties {
  import opened Parking
  import opened FareCalculatorService

  /** The hourly rate of a priced category: the one the switch selects. */
  function RateOf(rates: Rates, t: ParkingType): (r: real)
    ensures Priced(t) ==> HourlyRate(rates, Some(t)) == Success(r)
  {
    match t
    case CAR => rates.carRatePerHour
    case BIKE => rates.bikeRatePerHour
    case Other(_) => 0.0
  }

  predicate Priced(t: ParkingType) {
    t == CAR || t == BIKE
  }

  /** An exit time before the entry time raises IllegalArgumentException, before
      any price is computed. */
  lemma OutBeforeInIsIllegalArgument(rates: Rates, inTime: int, outTime: int,
                                     parkingType: Option<ParkingType>, discount: bool)
    requires outTime < inTime
    ensures ComputeFare(rates, inTime, Some(outTime), parkingType, discount)
            == Failure(IllegalArgumentException(IncorrectOutTime))
  {
  }

  /** A null exit time raises NullPointerException, from the message of the
      IllegalArgumentException the guard was about to throw. */
  lemma NullOutTimeIsNullPointer(rates: Rates, inTime: int,
                                 parkingType: Option<ParkingType>, discount: bool)
    ensures ComputeFare(rates, inTime, None, parkingType, discount)
            == Failure(NullPointerException(OutTimeInMessage))
  {
  }

  /** The duration is a whole number of hours: the elapsed seconds truncated to
      the hour, so two exit times within the same hour give the same duration. */
  lemma {:induction false} DurationIsTruncated(inTime: int, outTime: int, extra: int)
    requires inTime <= outTime
    requires (outTime - inTime) % SecondsPerHour == 0
    requires 0 <= extra < SecondsPerHour
    ensures DurationHours(inTime, outTime + extra) == DurationHours(inTime, outTime)
    ensures DurationHours(inTime, outTime) * SecondsPerHour == outTime - inTime
  {
    var d := DurationHours(inTime, outTime);
    var d' := DurationHours(inTime, outTime + extra);
    assert d * SecondsPerHour == outTime - inTime;
    assert d' * SecondsPerHour <= outTime - inTime + extra < (d' + 1) * SecondsPerHour;
    assert d <= d' < d + 1;
  }

  /** Any stay shorter than FreeThreshold whole hours (6,480,000 seconds) is free,
      whatever the parking type, even a null one, and whatever the discount flag. */
  lemma {:induction false} FreeBelowThreshold(rates: Rates, inTime: int, outTime: int,
                                              parkingType: Option<ParkingType>, discount: bool)
    requires 0 <= outTime - inTime < FreeThreshold * SecondsPerHour
    ensures ComputeFare(rates, inTime, Some(outTime), parkingType, discount) == Success(0.0)
  {
    var d := DurationHours(inTime, outTime);
    assert d * SecondsPerHour < FreeThreshold * SecondsPerHour;
  }

  /** A stay of FreeThreshold whole hours or more costs the truncated duration
      times the category's hourly rate, with no cap, discount or not. */
  lemma ChargedPerWholeHour(rates: Rates, inTime: int, outTime: int,
                            t: ParkingType, discount: bool)
    requires Priced(t)
    requires inTime <= outTime && DurationHours(inTime, outTime) >= FreeThreshold
    ensures ComputeFare(rates, inTime, Some(outTime), Some(t), discount).Success?
    ensures ComputeFare(rates, inTime, Some(outTime), Some(t), discount).value
            == DurationHours(inTime, outTime) as real * RateOf(rates, t)
  {
  }

  /** Past the threshold the category is read: a null type raises
      NullPointerException and an unknown one IllegalArgumentException. */
  lemma UnpricedTypeAboveThreshold(rates: Rates, inTime: int, outTime: int,
                                   parkingType: Option<ParkingType>, discount: bool)
    requires inTime <= outTime && DurationHours(inTime, outTime) >= FreeThreshold
    requires parkingType != Some(CAR) && parkingType != Some(BIKE)
    ensures parkingType == None ==>
              ComputeFare(rates, inTime, Some(outTime), parkingType, discount)
              == Failure(NullPointerException(ParkingTypeInSwitch))
    ensures parkingType != None ==>
              ComputeFare(rates, inTime, Some(outTime), parkingType, discount)
              == Failure(IllegalArgumentException(UnknownParkingType))
  {
  }

  /** A priced ticket is free exactly when its stay is under the threshold or its
      category's rate is zero. */
  lemma {:induction false} FreeIffShortOrZeroRate(rates: Rates, inTime: int, outTime: int,
                                                  t: ParkingType, discount: bool)
    requires Priced(t) && inTime <= outTime
    ensures ComputeFare(rates, inTime, Some(outTime), Some(t), discount) == Success(0.0)
            <==> DurationHours(inTime, outTime) < FreeThreshold || RateOf(rates, t) == 0.0
  {
    var d := DurationHours(inTime, outTime);
    if d >= FreeThreshold {
      ChargedPerWholeHour(rates, inTime, outTime, t, discount);
      var r := RateOf(rates, t);
      assert d as real >= 1.0;
      if r != 0.0 {
        assert d as real * r != 0.0 by {
          if r > 0.0 {
            assert d as real * r >= r;
          } else {
            assert d as real * r <= r;
          }
        }
      }
    }
  }

  /** Past the threshold, every further hour adds exactly one hourly rate. */
  lemma {:induction false} ExtraHourAddsOneRate(rates: Rates, inTime: int, outTime: int,
                                                t: ParkingType, discount: bool)
    requires Priced(t)
    requires inTime <= outTime && DurationHours(inTime, outTime) >= FreeThreshold
    ensures ComputeFare(rates, inTime, Some(outTime + SecondsPerHour), Some(t), discount).Success?
    ensures ComputeFare(rates, inTime, Some(outTime + SecondsPerHour), Some(t), discount).value
            == ComputeFare(rates, inTime, Some(outTime), Some(t), discount).value + RateOf(rates, t)
  {
    var d := DurationHours(inTime, outTime);
    var d' := DurationHours(inTime, outTime + SecondsPerHour);
    assert d' == d + 1 by {
      assert d' * SecondsPerHour <= outTime - inTime + SecondsPerHour < (d' + 1) * SecondsPerHour;
    }
    ChargedPerWholeHour(rates, inTime, outTime, t, discount);
    ChargedPerWholeHour(rates, inTime, outTime + SecondsPerHour, t, discount);
    assert d' as real * RateOf(rates, t) == d as real * RateOf(rates, t) + RateOf(rates, t);
  }

  /** With non-negative rates, leaving later never costs less. */
  lemma {:induction false} FareMonotoneInExitTime(rates: Rates, inTime: int, outTime: int, laterOut: int,
                                                  t: ParkingType, discount: bool)
    requires rates.NonNegative() && Priced(t)
    requires inTime <= outTime <= laterOut
    ensures ComputeFare(rates, inTime, Some(outTime), Some(t), discount).Success?
    ensures ComputeFare(rates, inTime, Some(laterOut), Some(t), discount).Success?
    ensures ComputeFare(rates, inTime, Some(outTime), Some(t), discount).value
            <= ComputeFare(rates, inTime, Some(laterOut), Some(t), discount).value
  {
    var d := DurationHours(inTime, outTime);
    var d' := DurationHours(inTime, laterOut);
    assert d <= d' by {
      assert d * SecondsPerHour <= outTime - inTime <= laterOut - inTime < (d' + 1) * SecondsPerHour;
    }
    if d >= FreeThreshold {
      ChargedPerWholeHour(rates, inTime, outTime, t, discount);
      ChargedPerWholeHour(rates, inTime, laterOut, t, discount);
      var r := RateOf(rates, t);
      assert d as real * r <= d' as real * r by {
        assert (d' as real - d as real) * r >= 0.0;
      }
    }
  }

  /** One hour of parking, the stay of the CAR and BIKE unit tests, is free. */
  lemma OneHourStayIsFree(rates: Rates, inTime: int, t: ParkingType, discount: bool)
    ensures ComputeFare(rates, inTime, Some(inTime + SecondsPerHour), Some(t), discount) == Success(0.0)
  {
  }

  /** A one-hour stay with a null parking type ends normally with price 0: the
      type is never read, so no NullPointerException is raised. */
  lemma NullTypeShortStayIsFree(rates: Rates, inTime: int, discount: bool)
    ensures ComputeFare(rates, inTime, Some(inTime + SecondsPerHour), None, discount) == Success(0.0)
  {
  }

  /** 1800 hours and 59 minutes 59 seconds cost the same as 1800 hours. */
  lemma {:induction false} TruncationDropsPartialHour(rates: Rates, inTime: int, t: ParkingType, discount: bool)
    requires Priced(t)
    ensures ComputeFare(rates, inTime, Some(inTime + FreeThreshold * SecondsPerHour + 3599), Some(t), discount)
            == ComputeFare(rates, inTime, Some(inTime + FreeThreshold * SecondsPerHour), Some(t), discount)
    ensures ComputeFare(rates, inTime, Some(inTime + FreeThreshold * SecondsPerHour), Some(t), discount).Success?
    ensures ComputeFare(rates, inTime, Some(inTime + FreeThreshold * SecondsPerHour), Some(t), discount).value
            == 1800.0 * RateOf(rates, t)
  {
    var whole := inTime + FreeThreshold * SecondsPerHour;
    DurationIsTruncated(inTime, whole, 3599);
    assert DurationHours(inTime, whole) == 1800;
    ChargedPerWholeHour(rates, inTime, whole, t, discount);
    ChargedPerWholeHour(rates, inTime, whole + 3599, t, discount);
  }
}
