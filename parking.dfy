/**
  The entities the fare rule consumes: a parking ticket, the vehicle category of
  its spot, the per-category hourly rates, and the exceptions the rule can raise.
  Timestamps are whole seconds on one time line.
 */
module Parking {

  /** A value that Java may leave as null. */
  datatype Option<+T> = None | Some(value: T)

  /** The category of a parking spot. CAR and BIKE are the categories the fare rule
      prices; `Other` stands for any further constant of the enumeration. */
  datatype ParkingType = CAR | BIKE | Other(name: string)

  /** The hourly rates of the fare configuration, one per priced category. */
  datatype Rates = Rates(carRatePerHour: real, bikeRatePerHour: real)
  {
    predicate NonNegative() {
      carRatePerHour >= 0.0 && bikeRatePerHour >= 0.0
    }

    predicate Positive() {
      carRatePerHour > 0.0 && bikeRatePerHour > 0.0
    }
  }

  /** Why an IllegalArgumentException is raised. */
  datatype IllegalArgumentReason = IncorrectOutTime | UnknownParkingType

  /** Which dereference of a null raises a NullPointerException. */
  datatype NullSite =
    | OutTimeInMessage     // the error message calls toString() on the exit time
    | ParkingTypeInSwitch  // the switch reads the parking type of the spot

  /** The exceptions the fare rule can throw. */
  datatype Error =
    | IllegalArgumentException(reason: IllegalArgumentReason)
    | NullPointerException(site: NullSite)

  /** A computed value, or the exception that ends the computation. */
  datatype Result<+T> = Success(value: T) | Failure(error: Error)

  /** How a void Java method ends: normally, or by throwing. */
  datatype Outcome = Pass | Fail(error: Error)

  /** A parking ticket. `parkingType` is the type of the ticket's parking spot;
      `None` stands for a missing spot or a spot whose type is null. */
  class Ticket {
    var inTime: int
    var outTime: Option<int>
    var parkingType: Option<ParkingType>
    var discount: bool
    var price: real
  }
}
