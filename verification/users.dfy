/**
 * The `/users` router: the user store (the shared handlers of RecordStore
 * with the user fields) and the subscription-details computation, which
 * turns dates into day numbers, adds the tier's allowance and derives the
 * days left, the overdue flag and the fine.
 *
 * Dates reach the model as milliseconds since the epoch: `parse` stands for
 * `new Date(string).getTime()` (None for an invalid date, whose time is NaN)
 * and a `Clock` for the instants at which `new Date()` reads the clock.
 * NaN is carried through the arithmetic as None and compares false, as in
 * JavaScript.
 */
module Users {
  import opened Records
  import opened RecordStore

  const UserSchema: Schema := Entity("User", [Id, "name", "email", "subscriptionType", "subscriptionDate"])

  /** `1000 * 60 * 60 * 24` */
  const MsPerDay := 1000 * 60 * 60 * 24

  /** `Math.ceil(ms / MsPerDay)`: the smallest day number whose end is not before `ms`. */
  function DayNumber(ms: int): (d: int)
    ensures (d - 1) * MsPerDay < ms <= d * MsPerDay
  {
    -((-ms) / MsPerDay)
  }

  /**
   * The instants at which the handler may read the clock, in program order:
   * for a falsy `returnDate`, for today, and for a falsy `subscriptionDate`.
   * Each `new Date()` is a separate read, so the three may differ.
   */
  datatype Clock = Clock(returnRead: int, today: int, startRead: int)

  /** `getDateInDays(value)`: the day number of the parsed date, or of the clock read `clockMs` when the value is falsy. */
  function DayOf(value: Option<string>, clockMs: int, parse: string -> Option<int>): (r: Option<int>)
    ensures r.None? <==> value.Some? && value.value != "" && parse(value.value).None?
    ensures value.None? || value.value == "" ==> r == Some(DayNumber(clockMs))
    ensures value.Some? && value.value != "" && parse(value.value).Some? ==>
      r == Some(DayNumber(parse(value.value).value))
  {
    if value.Some? && value.value != "" then
      match parse(value.value)
      case None => None
      case Some(ms) => Some(DayNumber(ms))
    else Some(DayNumber(clockMs))
  }

  /** The days a subscription tier adds to its start day (the local `subscriptionType` helper). */
  function TierOffset(tier: Option<string>): (r: nat)
    ensures r in {0, 90, 180, 365}
    ensures r == 0 <==> tier !in {Some("Basic"), Some("Standard"), Some("Premium")}
  {
    if tier == Some("Basic") then 90
    else if tier == Some("Standard") then 180
    else if tier == Some("Premium") then 365
    else 0
  }

  /** `day - current`, NaN staying NaN. */
  function DaysFrom(day: Option<int>, current: int): Option<int> {
    match day
    case None => None
    case Some(d) => Some(d - current)
  }

  /** The `returnDate` field of the answer: the literal "Book is overdue" or the return day (NaN sent as null). */
  datatype ReturnField = Overdue | ReturnDay(day: Option<int>)

  /** The object answered by `GET /subscription-details/:id`: the user's own fields with the computed ones on top. */
  datatype SubscriptionDetails = SubscriptionDetails(
    fields: Record,
    subscriptionDaysLeft: Option<int>,
    daysLeftForReturn: Option<int>,
    returnDate: ReturnField,
    fine: nat)

  /** The computed fields, which win over user fields of the same name. */
  const ComputedKeys: set<string> := {"subscriptionDaysLeft", "daysLeftForReturn", "returnDate", "fine"}

  function ReturnDayOf(user: Record, clock: Clock, parse: string -> Option<int>): Option<int> {
    DayOf(Lookup(user, "returnDate"), clock.returnRead, parse)
  }

  function StartDayOf(user: Record, clock: Clock, parse: string -> Option<int>): Option<int> {
    DayOf(Lookup(user, "subscriptionDate"), clock.startRead, parse)
  }

  function ExpiryDayOf(user: Record, clock: Clock, parse: string -> Option<int>): Option<int> {
    match StartDayOf(user, clock, parse)
    case None => None
    case Some(d) => Some(d + TierOffset(Lookup(user, "subscriptionType")))
  }

  /**
   * The subscription details of `user` with the clock read at `clock`.  The
   * answer says "Book is overdue" exactly when it counts negative days left
   * for return.
   */
  function Details(user: Record, clock: Clock, parse: string -> Option<int>): (r: SubscriptionDetails)
    ensures r.returnDate == Overdue <==> r.daysLeftForReturn.Some? && r.daysLeftForReturn.value < 0
  {
    var returnDay := ReturnDayOf(user, clock, parse);
    var currentDay := DayNumber(clock.today);
    var expiry := ExpiryDayOf(user, clock, parse);
    var overdue := returnDay.Some? && returnDay.value < currentDay;
    var expired := expiry.Some? && expiry.value <= currentDay;
    SubscriptionDetails(
      user - ComputedKeys,
      DaysFrom(expiry, currentDay),
      DaysFrom(returnDay, currentDay),
      if overdue then Overdue else ReturnDay(returnDay),
      if overdue then (if expired then 200 else 100) else 0)
  }

  /** `GET /subscription-details/:id` — 404 for an unknown id, else the details of the first user with it. */
  method GetSubscriptionDetails(users: Store, id: string, clock: Clock, parse: string -> Option<int>)
    returns (res: Response<SubscriptionDetails>)
    requires users.schema == UserSchema
    ensures FindIndex(users.records, id).None? ==> res == Failure(404, "User not found for id: " + id)
    ensures FindIndex(users.records, id).Some? ==>
      res == Response(200, true, None, Some(Details(users.records[FindIndex(users.records, id).value], clock, parse)))
    ensures res.success ==> exists i :: 0 <= i < |users.records| && HasId(users.records[i], id)
  {
    var found := FindIndex(users.records, id);
    match found
    case None =>
      assert "User" + " not found for id: " == "User not found for id: ";
      res := Failure(404, NotFoundMessage(users.schema, id));
    case Some(i) =>
      res := Response(200, true, None, Some(Details(users.records[i], clock, parse)));
  }

  // ---------------------------------------------------------------------------
  // Properties

  /** A created user is exactly `{id, name, email, subscriptionType, subscriptionDate}` taken from the body. */
  lemma CreatedUserShape(body: Record)
    requires Truthy(body, Id) && Truthy(body, "name") && Truthy(body, "email")
    requires Truthy(body, "subscriptionType") && Truthy(body, "subscriptionDate")
    ensures AllPresent(body, UserSchema.fields)
    ensures Project(body, UserSchema.fields) ==
      map[Id := body[Id], "name" := body["name"], "email" := body["email"],
          "subscriptionType" := body["subscriptionType"], "subscriptionDate" := body["subscriptionDate"]]
  {
    var fs := UserSchema.fields;
    assert fs[0] == Id && fs[1] == "name" && fs[2] == "email" && fs[3] == "subscriptionType" && fs[4] == "subscriptionDate";
    assert forall f :: f in fs <==> f == Id || f == "name" || f == "email" || f == "subscriptionType" || f == "subscriptionDate";
  }

  /** A later instant never has an earlier day number. */
  lemma DayNumberMonotonic(a: int, b: int)
    requires a <= b
    ensures DayNumber(a) <= DayNumber(b)
  {
  }

  /** Shifting an instant by whole days shifts its day number by as many days. */
  lemma DayNumberShift(ms: int, days: int)
    ensures DayNumber(ms + days * MsPerDay) == DayNumber(ms) + days
  {
    var d, e := DayNumber(ms), DayNumber(ms + days * MsPerDay);
    assert (d - 1) * MsPerDay + days * MsPerDay == (d + days - 1) * MsPerDay;
    assert d * MsPerDay + days * MsPerDay == (d + days) * MsPerDay;
    assert (e - 1) * MsPerDay < (d + days) * MsPerDay;
    assert (d + days - 1) * MsPerDay < e * MsPerDay;
  }

  /**
   * The days left on a subscription are its expiry day minus today, where
   * the expiry day is the start day plus 90 (Basic), 180 (Standard), 365
   * (Premium) or 0 (any other tier); an unparsable start date gives NaN.
   */
  lemma SubscriptionDaysLeftByTier(user: Record, clock: Clock, parse: string -> Option<int>)
    ensures var start := StartDayOf(user, clock, parse);
            var tier := Lookup(user, "subscriptionType");
            var today := DayNumber(clock.today);
            var left := Details(user, clock, parse).subscriptionDaysLeft;
            && (start.None? <==> left.None?)
            && (start.Some? && tier == Some("Basic") ==> left == Some(start.value + 90 - today))
            && (start.Some? && tier == Some("Standard") ==> left == Some(start.value + 180 - today))
            && (start.Some? && tier == Some("Premium") ==> left == Some(start.value + 365 - today))
            && (start.Some? && tier !in {Some("Basic"), Some("Standard"), Some("Premium")} ==>
                  left == Some(start.value - today))
  {
  }

  /**
   * The book is overdue exactly when its return day is before today; the
   * fine is 0 when it is not, 200 when it is and the subscription has
   * expired (expiry day not after today), and 100 otherwise.
   */
  lemma OverdueAndFine(user: Record, clock: Clock, parse: string -> Option<int>)
    ensures var d := Details(user, clock, parse);
            var returnDay := ReturnDayOf(user, clock, parse);
            var expiry := ExpiryDayOf(user, clock, parse);
            var today := DayNumber(clock.today);
            var overdue := returnDay.Some? && returnDay.value < today;
            && (d.returnDate == Overdue <==> overdue)
            && (!overdue ==> d.returnDate == ReturnDay(returnDay) && d.fine == 0)
            && (overdue && expiry.Some? && expiry.value <= today ==> d.fine == 200)
            && (overdue && !(expiry.Some? && expiry.value <= today) ==> d.fine == 100)
            && d.daysLeftForReturn == (if returnDay.Some? then Some(returnDay.value - today) else None)
  {
  }

  /** The fine is always one of 0, 100 and 200, and is 0 exactly when the book is not overdue. */
  lemma FineValues(user: Record, clock: Clock, parse: string -> Option<int>)
    ensures Details(user, clock, parse).fine in {0, 100, 200}
    ensures Details(user, clock, parse).fine == 0 <==> Details(user, clock, parse).returnDate != Overdue
  {
  }

  /**
   * Without a (truthy) return date, the return day is the day of the first
   * clock read; when that read and today's fall in the same day, the book is
   * due today: zero days left, not overdue, no fine.
   */
  lemma NoReturnDateIsDueToday(user: Record, clock: Clock, parse: string -> Option<int>)
    requires !Truthy(user, "returnDate")
    requires DayNumber(clock.returnRead) == DayNumber(clock.today)
    ensures Details(user, clock, parse).daysLeftForReturn == Some(0)
    ensures Details(user, clock, parse).returnDate == ReturnDay(Some(DayNumber(clock.today)))
    ensures Details(user, clock, parse).fine == 0
  {
  }

  /**
   * Without a (truthy) return date, the days left for return are the day of
   * the first clock read minus today's; a clock that does not run backwards
   * never gives a positive count.
   */
  lemma NoReturnDateDaysLeft(user: Record, clock: Clock, parse: string -> Option<int>)
    requires !Truthy(user, "returnDate")
    ensures Details(user, clock, parse).daysLeftForReturn ==
      Some(DayNumber(clock.returnRead) - DayNumber(clock.today))
    ensures clock.returnRead <= clock.today ==> Details(user, clock, parse).daysLeftForReturn.value <= 0
  {
    if clock.returnRead <= clock.today {
      DayNumberMonotonic(clock.returnRead, clock.today);
    }
  }

  /**
   * The clock reads are separate: a user with no return date and no
   * subscription fields, whose first read falls in one day and whose second
   * falls in the next, is answered "Book is overdue" with the fine 200.
   */
  lemma NoReturnDateOverdueAcrossMidnight(parse: string -> Option<int>)
    ensures var d := Details(map[], Clock(0, 1, 1), parse);
            d.returnDate == Overdue && d.daysLeftForReturn == Some(-1) && d.fine == 200
  {
    assert DayNumber(0) == 0;
    assert DayNumber(1) == 1;
  }

  /** The user's own fields are answered, except those the computed fields replace. */
  lemma DetailsKeepUserFields(user: Record, clock: Clock, parse: string -> Option<int>)
    ensures Details(user, clock, parse).fields.Keys == user.Keys - ComputedKeys
    ensures forall k | k in user && k !in ComputedKeys :: Details(user, clock, parse).fields[k] == user[k]
  {
  }

  /**
   * A Basic subscriber who subscribed exactly 200 days ago and holds no book:
   * 110 days past expiry, but with no return date the fine stays 0.
   */
  lemma BasicSubscriberTwoHundredDaysIn(user: Record, clock: Clock, parse: string -> Option<int>)
    requires Lookup(user, "subscriptionType") == Some("Basic")
    requires Truthy(user, "subscriptionDate") && parse(user["subscriptionDate"]) == Some(clock.today - 200 * MsPerDay)
    requires !Truthy(user, "returnDate") && DayNumber(clock.returnRead) == DayNumber(clock.today)
    ensures Details(user, clock, parse).subscriptionDaysLeft == Some(-110)
    ensures Details(user, clock, parse).daysLeftForReturn == Some(0)
    ensures Details(user, clock, parse).fine == 0
  {
    DayNumberShift(clock.today, -200);
  }
}
