/**
  The fare rule as the service computes it. `ComputeFare` is the rule as a value
  (the price the ticket receives, or the exception raised). `CalculateFare` and
  `CalculDiscount` are the service's two methods, which write the price onto the
  ticket: `CalculateFare` is proved to write what `ComputeFare` gives, or nothing
  when it throws; `CalculDiscount` never throws and is proved to write
  `DiscountedPrice` of its price argument, which is that argument unchanged.
 */
module FareCalculatorService {
  import opened Parking

  const SecondsPerHour: int := 3600

  /** The threshold the duration is compared with: thirty times sixty. The duration
      it is compared with counts whole hours, not minutes or seconds. */
  const FreeThreshold: int := 30 * 60

  /** The elapsed time in whole hours: the elapsed seconds divided by 3600 with
      Java's long division, which truncates; the count is never negative here. */
  function DurationHours(inTime: int, outTime: int): (d: nat)
    requires inTime <= outTime
    ensures d * SecondsPerHour <= outTime - inTime < (d + 1) * SecondsPerHour
  {
    (outTime - inTime) / SecondsPerHour
  }

  /** The switch on the spot's parking type: the hourly rate of CAR or BIKE, a
      NullPointerException for a null type, and an IllegalArgumentException from
      the default branch for any other type. */
  function HourlyRate(rates: Rates, parkingType: Option<ParkingType>): (r: Result<real>)
    ensures r.Success? <==> parkingType == Some(CAR) || parkingType == Some(BIKE)
    ensures parkingType == None ==> r == Failure(NullPointerException(ParkingTypeInSwitch))
    ensures parkingType.Some? && parkingType.value.Other? ==> r == Failure(IllegalArgumentException(UnknownParkingType))
    ensures r.Success? && rates.NonNegative() ==> r.value >= 0.0
  {
    match parkingType
    case None => Failure(NullPointerException(ParkingTypeInSwitch))
    case Some(CAR) => Success(rates.carRatePerHour)
    case Some(BIKE) => Success(rates.bikeRatePerHour)
    case Some(Other(_)) => Failure(IllegalArgumentException(UnknownParkingType))
  }

  /** The price calculDiscount writes. The discount rate is the int expression
      5 / 100, which is 0, so a discount ticket pays the full price. */
  function DiscountedPrice(price: real, isDiscount: bool): (p: real)
    ensures p == price
  {
    if isDiscount then
      var discount := (5 / 100) as real;
      assert discount == 0.0 by { assert 5 / 100 == 0; }
      price * (1.0 - discount)
    else
      price
  }

  /** The outcome of calculateFare on a ticket with these fields: the price it
      writes, or the exception it throws. The previous price plays no part. */
  function ComputeFare(rates: Rates, inTime: int, outTime: Option<int>,
                       parkingType: Option<ParkingType>, discount: bool): (r: Result<real>)
    ensures r.Failure? <==>
              || outTime.None?
              || outTime.value < inTime
              || (DurationHours(inTime, outTime.value) >= FreeThreshold
                  && parkingType != Some(CAR) && parkingType != Some(BIKE))
    ensures r.Success? && rates.NonNegative() ==> r.value >= 0.0
  {
    if outTime.None? || outTime.value < inTime then
      // building the exception message dereferences the exit time
      if outTime.None? then Failure(NullPointerException(OutTimeInMessage))
      else Failure(IllegalArgumentException(IncorrectOutTime))
    else
      var duration := DurationHours(inTime, outTime.value);
      if duration >= FreeThreshold then
        match HourlyRate(rates, parkingType)
        case Success(rate) => Success(DiscountedPrice(duration as real * rate, discount))
        case Failure(e) => Failure(e)
      else
        Success(0.0)
  }

  /** calculDiscount: reassigns its price argument when the ticket has a discount,
      then writes it as the ticket's price. Only the price field is written. */
  method CalculDiscount(price: real, ticket: Ticket)
    modifies ticket`price
    ensures ticket.price == DiscountedPrice(price, ticket.discount)
    ensures ticket.price == price
  {
    var p := price;
    if ticket.discount {
      var discount: real := (5 / 100) as real;
      p := p * (1.0 - discount);
    }
    ticket.price := p;
  }

  /** calculateFare: validates the exit time, computes the truncated duration,
      and writes either 0 or the duration times the category's rate, passed
      through calculDiscount. A thrown exception leaves the price as it was;
      only the price field is ever written. */
  method CalculateFare(rates: Rates, ticket: Ticket) returns (outcome: Outcome)
    modifies ticket`price
    ensures match ComputeFare(rates, ticket.inTime, ticket.outTime, ticket.parkingType, ticket.discount)
            case Success(p) => outcome == Pass && ticket.price == p
            case Failure(e) => outcome == Fail(e) && ticket.price == old(ticket.price)
  {
    if ticket.outTime.None? || ticket.outTime.value < ticket.inTime {
      if ticket.outTime.None? {
        return Fail(NullPointerException(OutTimeInMessage));
      }
      return Fail(IllegalArgumentException(IncorrectOutTime));
    }
    var inHour := ticket.inTime;
    var outHour := ticket.outTime.value;
    var duration := (outHour - inHour) / SecondsPerHour;
    if duration >= FreeThreshold {
      match ticket.parkingType {
        case None =>
          return Fail(NullPointerException(ParkingTypeInSwitch));
        case Some(CAR) =>
          ticket.price := duration as real * rates.carRatePerHour;
          CalculDiscount(ticket.price, ticket);
        case Some(BIKE) =>
          ticket.price := duration as real * rates.bikeRatePerHour;
          CalculDiscount(ticket.price, ticket);
        case Some(Other(_)) =>
          return Fail(IllegalArgumentException(UnknownParkingType));
      }
    } else {
      ticket.price := 0.0;
    }
    return Pass;
  }

  /** Calling calculateFare twice on the same ticket ends the same way both
      times and leaves the price the first call wrote. */
  method CalculateFareTwice(rates: Rates, ticket: Ticket)
    returns (first: Outcome, firstPrice: real, second: Outcome)
    modifies ticket`price
    ensures second == first
    ensures ticket.price == firstPrice
    ensures first.Fail? ==> ticket.price == old(ticket.price)
  {
    first := CalculateFare(rates, ticket);
    firstPrice := ticket.price;
    second := CalculateFare(rates, ticket);
  }
}
