# Parking fare rule

A Dafny model of the fare rule of the parking system: the service that, when a
vehicle leaves, turns a parking ticket's entry time, exit time, spot category
(CAR or BIKE) and discount flag into the ticket's price.

The model follows the code of `FareCalculatorService` as it is written:

- the elapsed seconds are divided by 3600 with integer division, so the
  duration is a whole number of hours, truncated;
- that duration in hours is compared with `30 * 60`, so every stay shorter
  than 1800 hours (75 days) is free, whatever its category;
- past that threshold the price is the whole hours times the category's hourly
  rate, a null category raises NullPointerException and any other category
  IllegalArgumentException;
- the discount step computes its rate as the int expression `5 / 100`, which is
  0, so it never changes the price;
- a null exit time fails with a NullPointerException raised while building the
  message of the IllegalArgumentException, not with that exception.

The rule the repository evidently intends differs from the code in these four
places. It is read from the tests and the code's own constants, not from a
design document: fractional hours from the test comments at
`FareCalculatorServiceTest.java:92-94` ("45 minutes parking time should give
3/4th parking fare") and `:126-127` (24 hours give 24 hourly fares); free under
thirty minutes from the test names at `:139`, `:153` and `:167` and the
`30 * 60` at `FareCalculatorService.java:21`; 5% off from the `5 / 100` at
`FareCalculatorService.java:43`; an incorrect-exit-time error for a missing
exit time from the guard at `FareCalculatorService.java:12-13`. Where they
disagree the model of the service follows the code. The intended rule is
modelled separately, as `IntendedRule.IntendedFare`, with lemmas saying where the two
agree and where they part. The unit tests in
`FareCalculatorServiceTest.java` expect yet another value, the number of
minutes times the hourly rate (60 rates for one hour); neither rule produces
it, and no contract of the model uses those expected values.

Files:

- `parking.dfy` (module `Parking`): the ticket as a class whose `price` the
  service writes, the parking categories, the hourly rates, the exceptions,
  and `Result`/`Outcome` for "a value or an exception".
- `fare_calculator_service.dfy` (module `FareCalculatorService`): the rule as
  a function `ComputeFare`, and the service's two methods `CalculateFare` and
  `CalculDiscount`, which write only `ticket.price`. `CalculateFare` is proved
  to write exactly what `ComputeFare` gives, or nothing when it throws.
  `CalculDiscount` never throws; it is proved to write `DiscountedPrice` of its
  price argument, which equals that argument.
- `fare_properties.dfy` (module `FareProperties`): what the rule does for
  every input: error cases, the free branch, the charged branch, growth with
  the length of the stay.
- `intended_fare.dfy` (module `IntendedRule`): the intended rule and its
  comparison with the code.

Exceptions are modelled as values: a method returns `Fail(e)` where the Java
method throws `e`, and then leaves the ticket's price as it was.

## Model

| member | source | states |
|---|---|---|
| `FareCalculatorService.DurationHours` | src/main/java/com/parkit/parkingsystem/service/FareCalculatorService.java:20 | the duration d is the elapsed seconds truncated to whole hours: d·3600 ≤ out − in < (d+1)·3600, and d ≥ 0 |
| `FareCalculatorService.HourlyRate` | src/main/java/com/parkit/parkingsystem/service/FareCalculatorService.java:22-35 | the switch yields a rate exactly for CAR and BIKE; a null type raises NullPointerException; any other type raises IllegalArgumentException; rates are non-negative when configured so |
| `FareCalculatorService.DiscountedPrice` | src/main/java/com/parkit/parkingsystem/service/FareCalculatorService.java:41-47 | the price after the discount step equals the price before it, discount flag or not, because 5 / 100 is 0 |
| `FareCalculatorService.ComputeFare` | src/main/java/com/parkit/parkingsystem/service/FareCalculatorService.java:11-39 | the rule fails exactly when the exit time is null, is before the entry time, or the duration reaches the threshold with a type other than CAR/BIKE; every price it yields is ≥ 0 under non-negative rates |
| `FareCalculatorService.CalculDiscount` | src/main/java/com/parkit/parkingsystem/service/FareCalculatorService.java:41-47 | writes only the ticket's price, and writes the price it was passed, unchanged |
| `FareCalculatorService.CalculateFare` | src/main/java/com/parkit/parkingsystem/service/FareCalculatorService.java:11-39 | writes only the ticket's price; on success the price is `ComputeFare` of the ticket's fields, on an exception the method fails with that exception and the price is unchanged |
| `FareCalculatorService.CalculateFareTwice` | src/main/java/com/parkit/parkingsystem/service/FareCalculatorService.java:11-39 | a second call on the same ticket ends the same way as the first and leaves the price the first call wrote (idempotence) |
| `FareProperties.OutBeforeInIsIllegalArgument` | src/main/java/com/parkit/parkingsystem/service/FareCalculatorService.java:12-14 | an exit time before the entry time raises IllegalArgumentException, whatever the type and discount |
| `FareProperties.NullOutTimeIsNullPointer` | src/main/java/com/parkit/parkingsystem/service/FareCalculatorService.java:12-13 | a null exit time raises NullPointerException from the message expression |
| `FareProperties.DurationIsTruncated` | src/main/java/com/parkit/parkingsystem/service/FareCalculatorService.java:20 | exit times within the same hour after a whole number of hours give the same duration |
| `FareProperties.FreeBelowThreshold` | src/main/java/com/parkit/parkingsystem/service/FareCalculatorService.java:20-38 | every stay under 1800 whole hours costs exactly 0, for any type (null included) and either discount flag |
| `FareProperties.ChargedPerWholeHour` | src/main/java/com/parkit/parkingsystem/service/FareCalculatorService.java:21-32 | from 1800 hours on, a CAR or BIKE ticket costs the whole hours times its category's rate, discount or not |
| `FareProperties.UnpricedTypeAboveThreshold` | src/main/java/com/parkit/parkingsystem/service/FareCalculatorService.java:21-35 | from 1800 hours on, a null type raises NullPointerException and any other unpriced type IllegalArgumentException |
| `FareProperties.FreeIffShortOrZeroRate` | src/main/java/com/parkit/parkingsystem/service/FareCalculatorService.java:21-38 | a CAR/BIKE ticket costs 0 if and only if its duration is under 1800 hours or its rate is 0 |
| `FareProperties.ExtraHourAddsOneRate` | src/main/java/com/parkit/parkingsystem/service/FareCalculatorService.java:20-32 | past the threshold each further hour adds exactly one hourly rate: the price is linear, with no cap |
| `FareProperties.FareMonotoneInExitTime` | src/main/java/com/parkit/parkingsystem/service/FareCalculatorService.java:20-38 | under non-negative rates, a later exit never costs less |
| `FareProperties.OneHourStayIsFree` | src/test/java/com/parkit/parkingsystem/FareCalculatorServiceTest.java:34-46 | the one-hour stay of the CAR and BIKE tests costs 0 under the code |
| `FareProperties.NullTypeShortStayIsFree` | src/test/java/com/parkit/parkingsystem/FareCalculatorServiceTest.java:62-73 | a one-hour stay with a null type ends normally with price 0: the type is never read, so the NullPointerException the test expects is not raised |
| `FareProperties.TruncationDropsPartialHour` | src/main/java/com/parkit/parkingsystem/service/FareCalculatorService.java:20 | 1800 h 59 min 59 s cost the same as 1800 h, namely 1800 hourly rates |
| `IntendedRule.ElapsedHours` | src/main/java/com/parkit/parkingsystem/service/FareCalculatorService.java:20 | the intended duration: elapsed seconds over 3600, fractions kept, so hours × 3600 is exactly the elapsed seconds |
| `IntendedRule.IntendedFare` | src/main/java/com/parkit/parkingsystem/service/FareCalculatorService.java:11-47 | the intended rule fails exactly for a null or earlier exit time, or a stay of 30 minutes or more with a type other than CAR/BIKE; its prices are ≥ 0 under non-negative rates |
| `IntendedRule.CalculateIntendedFare` | src/main/java/com/parkit/parkingsystem/service/FareCalculatorService.java:11-47 | the intended rule on a ticket: writes only the price, the one `IntendedFare` gives, or fails leaving it unchanged |
| `IntendedRule.IntendedNullOutTimeRejected` | src/main/java/com/parkit/parkingsystem/service/FareCalculatorService.java:12-13 | a null exit time is rejected with IllegalArgumentException |
| `IntendedRule.IntendedChargedProportionally` | src/main/java/com/parkit/parkingsystem/service/FareCalculatorService.java:20-32 | from 30 minutes on, a CAR/BIKE ticket pays fractional hours × rate, × 0.95 with a discount, a positive price at a positive rate |
| `IntendedRule.IntendedFreeIffUnderThirtyMinutes` | src/main/java/com/parkit/parkingsystem/service/FareCalculatorService.java:21 | at a positive rate a CAR/BIKE ticket is free if and only if the stay is under 1800 seconds |
| `IntendedRule.IntendedThirtyMinutes` | src/test/java/com/parkit/parkingsystem/FareCalculatorServiceTest.java:166-179 | exactly thirty minutes cost half the hourly rate (the test asserts 30 × rate) |
| `IntendedRule.IntendedOneHourCharged` | src/test/java/com/parkit/parkingsystem/FareCalculatorServiceTest.java:34-46 | one hour costs one hourly rate (the test asserts 60 × rate) |
| `IntendedRule.IntendedFortyFiveMinutes` | src/test/java/com/parkit/parkingsystem/FareCalculatorServiceTest.java:92-94 | 45 minutes in a CAR or on a BIKE cost 3/4 of the hourly rate, as the comment says, and 0.95 × that with a discount (the tests, on tickets without a discount, assert 45 × rate) |
| `IntendedRule.IntendedTwentyFourHours` | src/test/java/com/parkit/parkingsystem/FareCalculatorServiceTest.java:126-127 | 24 hours in a CAR cost 24 hourly rates, as the comment says, with no daily cap (the test asserts 24 · 60 × rate) |
| `IntendedRule.IntendedDiscountApplied` | src/main/java/com/parkit/parkingsystem/service/FareCalculatorService.java:41-45 | a discount ticket pays 95% of the price without the discount |
| `IntendedRule.RulesAgreeUnderThirtyMinutes` | src/test/java/com/parkit/parkingsystem/FareCalculatorServiceTest.java:138-164 | under thirty minutes both the code and the intended rule write 0, for any type and discount |
| `IntendedRule.AsWrittenFreeWhereIntendedCharges` | src/main/java/com/parkit/parkingsystem/service/FareCalculatorService.java:20-21 | from 30 minutes up to 1800 hours the code writes 0 where the intended rule charges a positive price |
| `IntendedRule.TruncationNeverOvercharges` | src/main/java/com/parkit/parkingsystem/service/FareCalculatorService.java:20 | past 1800 hours without a discount the code never charges more than the intended rule, and charges the same only for a whole number of hours |
| `IntendedRule.DiscountedTicketsOvercharged` | src/main/java/com/parkit/parkingsystem/service/FareCalculatorService.java:43-44 | past 1800 hours a discount ticket always pays the code more than the intended rule |

## Findings

| source | as written | input that shows it | evidently intended | confidence | as-written member | corrected member |
|---|---|---|---|---|---|---|
| src/main/java/com/parkit/parkingsystem/service/FareCalculatorService.java:20 | the duration is the elapsed seconds divided by 3600 in long arithmetic, whole hours truncated | a CAR stay of 1800 h 59 min 59 s is charged as 1800 h | the rate applies to fractional hours (the tests' comments: 45 minutes "should give 3/4th parking fare") | not executed; high | `FareProperties.TruncationDropsPartialHour` | `IntendedRule.IntendedChargedProportionally` |
| src/main/java/com/parkit/parkingsystem/service/FareCalculatorService.java:21 | the duration in hours is compared with 30 * 60 | a one-hour CAR stay costs 0 | only stays under thirty minutes (1800 seconds) are free | not executed; high | `FareProperties.OneHourStayIsFree` | `IntendedRule.IntendedFreeIffUnderThirtyMinutes` |
| src/main/java/com/parkit/parkingsystem/service/FareCalculatorService.java:43 | the discount rate is `5 / 100`, int division, which is 0 | a discount ticket pays the full price | a discount ticket pays 95% | not executed; high | `FareCalculatorService.DiscountedPrice` | `IntendedRule.IntendedDiscountApplied` |
| src/main/java/com/parkit/parkingsystem/service/FareCalculatorService.java:13 | the exception message calls `toString()` on the exit time, which the guard has just found null | a ticket with a null exit time raises NullPointerException | the guard's IllegalArgumentException | not executed; high | `FareProperties.NullOutTimeIsNullPointer` | `IntendedRule.IntendedNullOutTimeRejected` |

The service's methods (`CalculateFare`, `CalculDiscount`) keep the code's
behaviour, since they model it; the corrected rule is the function
`IntendedRule.IntendedFare` and the method `IntendedRule.CalculateIntendedFare`
built on it. In the corrected rule a null parking type past the free
threshold still raises NullPointerException, as the unknown-type test
expects.

## Left out

- Timestamps: `LocalDateTime` values, time zones and sub-second parts are
  reduced to whole seconds on one time line; `ChronoUnit.SECONDS.between` is
  their difference.
- Long overflow of the elapsed seconds is not modelled: every `LocalDateTime`
  difference fits in a Java long.
- Prices are exact reals: the IEEE-754 rounding of `duration * rate` in
  `double` is not modelled.
- The hourly rates are a parameter (`Rates`): the configuration class that
  holds them is not part of this model, nor are their values.
- The ticket, parking spot and parking type classes are not part of this
  model beyond the fields the rule reads and writes. A null parking spot and
  a spot whose type is null both appear as `parkingType == None`; both raise
  NullPointerException at the switch.
- A null ticket is not modelled: `Ticket` is a non-null reference, so the
  NullPointerException that `ticket.getOutTime()` raises on a null ticket at
  `FareCalculatorService.java:12` (and `ticket.isDiscount()` at `:42`) is not
  captured.
- A null entry time is not modelled: the entry time is always present.
- Exception message strings are not modelled, only the exception kind and
  the reason.
- The database integration test, the data access objects, console input and
  the parking service that calls the fare rule are persistence and I/O
  around the rule, not part of this model.
