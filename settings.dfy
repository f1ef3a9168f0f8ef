/** The working-hours configuration read from the environment (config.py). */
module Settings {

  /** CHECKIN_HOUR and CHECKOUT_HOUR: whole hours of the day. */
  datatype Config = Config(checkinHour: int, checkoutHour: int) {

    /** Hours that `datetime.replace(hour = ...)` accepts. */
    predicate Valid() {
      CheckinHourValid() && 0 <= checkoutHour < 24
    }

    /** The part the manual check-in reads: it only replaces the hour with CHECKIN_HOUR. */
    predicate CheckinHourValid() {
      0 <= checkinHour < 24
    }
  }

  /** The defaults used when the environment sets nothing. */
  const DefaultConfig: Config := Config(9, 18)
}
