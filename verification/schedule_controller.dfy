/** The four request handlers of the schedule controller. Each runs a fixed
    chain of checks, answers with the first one that fails, and otherwise
    makes at most one write to the store. A handler is a pure function from
    the store and the request's parts to the new store and the response. */
module ScheduleController {

  import opened Wrappers
  import opened TimeRange
  import opened ScheduleStore

  /** The logged-in user the authentication layer attaches to a request. */
  datatype User = User(id: UserId)

  /** The restaurant attached to a request. Its `id` may be missing: the
      list handler guards against that case explicitly. */
  datatype Restaurant = Restaurant(id: Option<RestaurantId>, userId: UserId)

  /** The two fields read from the request body. None stands for every
      value JavaScript treats as false (absent, null, the empty string). */
  datatype Body = Body(startTime: Option<TimeValue>, endTime: Option<TimeValue>)

  /** A response message: literal text written by the controller, or the
      message of the validator that failed. */
  datatype Message = Text(text: string) | Invalid(failure: ValidationFailure)

  datatype Response<T> = Ok(status: nat, value: T) | Err(status: nat, message: Message)

  /** The store after the handler, and its response. */
  datatype Outcome<T> = Outcome(store: Store, response: Response<T>)

  const StatusOk: nat := 200
  const StatusCreated: nat := 201
  const StatusUnauthorized: nat := 401
  const StatusForbidden: nat := 403
  const StatusNotFound: nat := 404
  const StatusUnprocessable: nat := 422
  const StatusInternalError: nat := 500

  const NotLoggedIn := Text("User is not logged in")
  const RestaurantMissing := Text("Restaurant does not exist")
  const RestaurantNotFound := Text("Restaurant not found")
  const NotOwner := Text("User is not the restaurant owner")
  const ScheduleNotFound := Text("Schedule not found")
  const TimesRequired := Text("startTime and endTime are required")
  const InternalError := Text("Internal Server Error")
  const DeletedText := "Schedule deleted successfully"

  /** The ownership check shared by create, update and destroy: the user's
      id is the restaurant's owner id. */
  predicate IsOwner(user: User, restaurant: Restaurant)
  {
    user.id == restaurant.userId
  }

  /** The first three checks of every mutating handler passed: a user is
      logged in, the restaurant is present and the user owns it. */
  predicate Authorized(user: Option<User>, restaurant: Option<Restaurant>)
  {
    user.Some? && restaurant.Some? && IsOwner(user.value, restaurant.value)
  }

  /** The schedule lookup of update and destroy: a row with that primary
      key that belongs to the request's restaurant. A row of another
      restaurant is treated exactly like a missing row. */
  function FindOwned(db: Store, id: ScheduleId, restaurant: Restaurant): (r: Option<Schedule>)
    requires Valid(db)
    ensures r.Some? <==> id in db.schedules && restaurant.id == Some(db.schedules[id].restaurantId)
    ensures r.Some? ==> r.value == db.schedules[id]
  {
    match Find(db, id)
    case None => None
    case Some(s) => if restaurant.id != Some(s.restaurantId) then None else Some(s)
  }

  /** Both body fields are present (truthy). */
  predicate TimesPresent(body: Body)
  {
    body.startTime.Some? && body.endTime.Some?
  }

  /** The payload passes every check of create and update. */
  predicate AcceptableTimes(body: Body)
  {
    TimesPresent(body) && ValidateTimes(body.startTime.value, body.endTime.value).None?
  }

  /** The payload checks shared by create and update: presence, then the
      validators. None means the payload is acceptable. */
  function CheckPayload(body: Body): (r: Option<Message>)
    ensures r.None? <==>
              && TimesPresent(body)
              && ValidTime(body.startTime.value) && ValidTime(body.endTime.value)
              && EndAfterStart(body.endTime.value, body.startTime.value)
    ensures !TimesPresent(body) ==> r == Some(TimesRequired)
    ensures TimesPresent(body) && r.Some? ==>
              r == Some(Invalid(ValidateTimes(body.startTime.value, body.endTime.value).value))
    ensures TimesPresent(body) &&
            (!ValidTime(body.startTime.value) || !ValidTime(body.endTime.value)) ==>
              r == Some(Invalid(InvalidFormat))
    ensures TimesPresent(body) &&
            ValidTime(body.startTime.value) && ValidTime(body.endTime.value) &&
            !EndAfterStart(body.endTime.value, body.startTime.value) ==>
              r == Some(Invalid(InvalidRange))
  {
    if body.startTime.None? || body.endTime.None? then Some(TimesRequired)
    else match ValidateTimes(body.startTime.value, body.endTime.value)
      case Some(failure) => Some(Invalid(failure))
      case None => None
  }

  /** The restaurant's id is truthy in JavaScript: present and not 0. */
  predicate HasTruthyId(restaurant: Restaurant)
  {
    restaurant.id.Some? && restaurant.id.value != 0
  }

  /** indexRestaurant: with a restaurant whose id is truthy, every schedule
      of that restaurant, in increasing primary-key order, with status 200;
      otherwise (no restaurant, no id, or id 0) 404 without consulting the
      store. The store is read only. */
  method IndexRestaurant(db: Store, restaurant: Option<Restaurant>) returns (r: Response<seq<Schedule>>)
    requires Valid(db)
    ensures restaurant.None? || !HasTruthyId(restaurant.value) ==>
              r == Err(StatusNotFound, RestaurantNotFound)
    ensures restaurant.Some? && HasTruthyId(restaurant.value) ==>
              && r.Ok? && r.status == StatusOk
              && (forall s :: s in r.value <==> s in SchedulesOf(db, restaurant.value.id.value))
              && (forall i, j :: 0 <= i < j < |r.value| ==> r.value[i].id < r.value[j].id)
  {
    if restaurant.None? || !HasTruthyId(restaurant.value) {
      return Err(StatusNotFound, RestaurantNotFound);
    }
    var rid := restaurant.value.id.value;
    var found: seq<Schedule> := [];
    var k: nat := 0;
    while k < db.nextId
      invariant k <= db.nextId
      invariant forall s :: s in found <==> s in SchedulesOf(db, rid) && s.id < k
      invariant forall i, j :: 0 <= i < j < |found| ==> found[i].id < found[j].id
      invariant forall i :: 0 <= i < |found| ==> found[i].id < k
    {
      if k in db.schedules && db.schedules[k].restaurantId == rid {
        found := found + [db.schedules[k]];
      }
      k := k + 1;
    }
    return Ok(StatusOk, found);
  }

  /** create: 401, 404, 403, 422 in that order; then one new row with the
      payload's times under the request's restaurant, answered with 201. A
      restaurant without an id, or one the store does not hold, makes the
      write fail and the handler answer 500. */
  function Create(db: Store, user: Option<User>, restaurant: Option<Restaurant>, body: Body)
    : (o: Outcome<Schedule>)
    requires Valid(db)
    ensures Valid(o.store)
    ensures o.response.Err? ==> o.store == db
    ensures o.response.Ok? ==>
      var s := o.response.value;
      && o.response.status == StatusCreated
      && Authorized(user, restaurant)
      && AcceptableTimes(body)
      && s.startTime == body.startTime.value
      && s.endTime == body.endTime.value
      && restaurant.value.id == Some(s.restaurantId)
      && s.id !in db.schedules
      && o.store.schedules.Keys == db.schedules.Keys + {s.id}
      && o.store.schedules[s.id] == s
      && (forall id :: id in db.schedules ==> o.store.schedules[id] == db.schedules[id])
      && o.store.restaurants == db.restaurants
  {
    if user.None? then Outcome(db, Err(StatusUnauthorized, NotLoggedIn))
    else if restaurant.None? then Outcome(db, Err(StatusNotFound, RestaurantMissing))
    else if !IsOwner(user.value, restaurant.value) then Outcome(db, Err(StatusForbidden, NotOwner))
    else match CheckPayload(body)
      case Some(message) => Outcome(db, Err(StatusUnprocessable, message))
      case None =>
        match Insert(db, body.startTime.value, body.endTime.value, restaurant.value.id)
        case None => Outcome(db, Err(StatusInternalError, InternalError))
        case Some((db', s)) => Outcome(db', Ok(StatusCreated, s))
  }

  /** update: 401, 404, 403, then 404 for a schedule that is missing or
      belongs to another restaurant, then 422; otherwise the two time
      fields of that one row change and the row is answered with 200. */
  function Update(db: Store, user: Option<User>, restaurant: Option<Restaurant>,
                  scheduleId: ScheduleId, body: Body): (o: Outcome<Schedule>)
    requires Valid(db)
    ensures Valid(o.store)
    ensures o.response.Err? ==> o.store == db
    ensures o.response.Ok? ==>
      var s := o.response.value;
      && o.response.status == StatusOk
      && Authorized(user, restaurant)
      && scheduleId in db.schedules
      && restaurant.value.id == Some(db.schedules[scheduleId].restaurantId)
      && AcceptableTimes(body)
      && s == db.schedules[scheduleId].(startTime := body.startTime.value,
                                         endTime := body.endTime.value)
      && o.store.schedules.Keys == db.schedules.Keys
      && o.store.schedules[scheduleId] == s
      && (forall k :: k in db.schedules && k != scheduleId ==>
                        o.store.schedules[k] == db.schedules[k])
      && o.store.restaurants == db.restaurants
  {
    if user.None? then Outcome(db, Err(StatusUnauthorized, NotLoggedIn))
    else if restaurant.None? then Outcome(db, Err(StatusNotFound, RestaurantMissing))
    else if !IsOwner(user.value, restaurant.value) then Outcome(db, Err(StatusForbidden, NotOwner))
    else match FindOwned(db, scheduleId, restaurant.value)
      case None => Outcome(db, Err(StatusNotFound, ScheduleNotFound))
      case Some(s) =>
        match CheckPayload(body)
        case Some(message) => Outcome(db, Err(StatusUnprocessable, message))
        case None =>
          var db' := SetTimes(db, s.id, body.startTime.value, body.endTime.value);
          Outcome(db', Ok(StatusOk, db'.schedules[s.id]))
  }

  /** destroy: the same four checks as update; then exactly that row is
      removed and a confirmation is answered with 200. */
  function Destroy(db: Store, user: Option<User>, restaurant: Option<Restaurant>,
                   scheduleId: ScheduleId): (o: Outcome<string>)
    requires Valid(db)
    ensures Valid(o.store)
    ensures o.response.Err? ==> o.store == db
    ensures o.response.Ok? ==>
      && o.response == Ok(StatusOk, DeletedText)
      && Authorized(user, restaurant)
      && scheduleId in db.schedules
      && restaurant.value.id == Some(db.schedules[scheduleId].restaurantId)
      && o.store.schedules.Keys == db.schedules.Keys - {scheduleId}
      && (forall k :: k in o.store.schedules ==> o.store.schedules[k] == db.schedules[k])
      && o.store.restaurants == db.restaurants
  {
    if user.None? then Outcome(db, Err(StatusUnauthorized, NotLoggedIn))
    else if restaurant.None? then Outcome(db, Err(StatusNotFound, RestaurantMissing))
    else if !IsOwner(user.value, restaurant.value) then Outcome(db, Err(StatusForbidden, NotOwner))
    else match FindOwned(db, scheduleId, restaurant.value)
      case None => Outcome(db, Err(StatusNotFound, ScheduleNotFound))
      case Some(s) => Outcome(Remove(db, s.id), Ok(StatusOk, DeletedText))
  }
}
