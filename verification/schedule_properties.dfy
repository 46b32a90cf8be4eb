/** Properties of the schedule lifecycle that relate the handlers to one
    another, to the list query and to the store's integrity. */
module ScheduleProperties {

  import opened Wrappers
  import opened TimeRange
  import opened ScheduleStore
  import opened ScheduleController

  /** The request's restaurant is the stored restaurant with that id, as the
      middleware that loads it from the database provides it. */
  ghost predicate Loaded(db: Store, restaurant: Restaurant)
  {
    restaurant.id.Some? && restaurant.id.value in db.restaurants
    && db.restaurants[restaurant.id.value] == restaurant.userId
  }

  /** Every stored schedule has well-formed times with the end strictly
      after the start: the promise the controller keeps for the rows it
      writes, which the table itself does not enforce. */
  ghost predicate TimesOrdered(db: Store)
  {
    forall id :: id in db.schedules ==>
      ValidTime(db.schedules[id].startTime) && ValidTime(db.schedules[id].endTime)
      && EndAfterStart(db.schedules[id].endTime, db.schedules[id].startTime)
  }

  /** Which status create answers, in terms of the request alone: each check
      decides only when every earlier one passed. */
  lemma CreateStatus(db: Store, user: Option<User>, restaurant: Option<Restaurant>, body: Body)
    requires Valid(db)
    ensures var st := Create(db, user, restaurant, body).response.status;
      && (st == StatusUnauthorized <==> user.None?)
      && (st == StatusNotFound <==> user.Some? && restaurant.None?)
      && (st == StatusForbidden <==>
            user.Some? && restaurant.Some? && !IsOwner(user.value, restaurant.value))
      && (st == StatusUnprocessable <==> Authorized(user, restaurant) && !AcceptableTimes(body))
      && (st == StatusCreated <==>
            Authorized(user, restaurant) && AcceptableTimes(body)
            && restaurant.value.id.Some? && restaurant.value.id.value in db.restaurants)
      && (st == StatusInternalError <==>
            Authorized(user, restaurant) && AcceptableTimes(body)
            && (restaurant.value.id.None? || restaurant.value.id.value !in db.restaurants))
    ensures user.None? ==>
              Create(db, user, restaurant, body).response == Err(StatusUnauthorized, NotLoggedIn)
    ensures user.Some? && restaurant.None? ==>
              Create(db, user, restaurant, body).response == Err(StatusNotFound, RestaurantMissing)
  {
  }

  /** Which status update answers. The schedule lookup comes after the
      ownership check and before the payload check. */
  lemma UpdateStatus(db: Store, user: Option<User>, restaurant: Option<Restaurant>,
                     scheduleId: ScheduleId, body: Body)
    requires Valid(db)
    ensures var st := Update(db, user, restaurant, scheduleId, body).response.status;
      && (st == StatusUnauthorized <==> user.None?)
      && (st == StatusForbidden <==>
            user.Some? && restaurant.Some? && !IsOwner(user.value, restaurant.value))
      && (st == StatusNotFound <==>
            user.Some? &&
            (restaurant.None? ||
             (Authorized(user, restaurant) && FindOwned(db, scheduleId, restaurant.value).None?)))
      && (st == StatusUnprocessable <==>
            Authorized(user, restaurant) && FindOwned(db, scheduleId, restaurant.value).Some?
            && !AcceptableTimes(body))
      && (st == StatusOk <==>
            Authorized(user, restaurant) && FindOwned(db, scheduleId, restaurant.value).Some?
            && AcceptableTimes(body))
      && st != StatusInternalError
    ensures user.None? ==>
              Update(db, user, restaurant, scheduleId, body).response ==
                Err(StatusUnauthorized, NotLoggedIn)
    ensures user.Some? && restaurant.None? ==>
              Update(db, user, restaurant, scheduleId, body).response ==
                Err(StatusNotFound, RestaurantMissing)
    ensures Authorized(user, restaurant) && FindOwned(db, scheduleId, restaurant.value).None? ==>
              Update(db, user, restaurant, scheduleId, body).response ==
                Err(StatusNotFound, ScheduleNotFound)
  {
  }

  /** Which status destroy answers. */
  lemma DestroyStatus(db: Store, user: Option<User>, restaurant: Option<Restaurant>,
                      scheduleId: ScheduleId)
    requires Valid(db)
    ensures var st := Destroy(db, user, restaurant, scheduleId).response.status;
      && (st == StatusUnauthorized <==> user.None?)
      && (st == StatusForbidden <==>
            user.Some? && restaurant.Some? && !IsOwner(user.value, restaurant.value))
      && (st == StatusNotFound <==>
            user.Some? &&
            (restaurant.None? ||
             (Authorized(user, restaurant) && FindOwned(db, scheduleId, restaurant.value).None?)))
      && (st == StatusOk <==>
            Authorized(user, restaurant) && FindOwned(db, scheduleId, restaurant.value).Some?)
      && st != StatusInternalError && st != StatusUnprocessable
    ensures user.None? ==>
              Destroy(db, user, restaurant, scheduleId).response ==
                Err(StatusUnauthorized, NotLoggedIn)
    ensures user.Some? && restaurant.None? ==>
              Destroy(db, user, restaurant, scheduleId).response ==
                Err(StatusNotFound, RestaurantMissing)
    ensures Authorized(user, restaurant) && FindOwned(db, scheduleId, restaurant.value).None? ==>
              Destroy(db, user, restaurant, scheduleId).response ==
                Err(StatusNotFound, ScheduleNotFound)
  {
  }

  /** A logged-in user who does not own the restaurant gets 403 from every
      mutating handler, whatever the payload or schedule id, and nothing is
      written. */
  lemma NonOwnerIsForbidden(db: Store, user: User, restaurant: Restaurant,
                            scheduleId: ScheduleId, body: Body)
    requires Valid(db)
    requires !IsOwner(user, restaurant)
    ensures Create(db, Some(user), Some(restaurant), body) ==
              Outcome(db, Err(StatusForbidden, NotOwner))
    ensures Update(db, Some(user), Some(restaurant), scheduleId, body) ==
              Outcome(db, Err(StatusForbidden, NotOwner))
    ensures Destroy(db, Some(user), Some(restaurant), scheduleId) ==
              Outcome(db, Err(StatusForbidden, NotOwner))
  {
  }

  /** A schedule of another restaurant is "not found" for the owner of this
      one, not forbidden and not changed, and this is decided before the
      payload is looked at. */
  lemma CrossTenantScheduleIsNotFound(db: Store, user: User, restaurant: Restaurant,
                                      scheduleId: ScheduleId, body: Body)
    requires Valid(db)
    requires IsOwner(user, restaurant)
    requires scheduleId in db.schedules
    requires restaurant.id != Some(db.schedules[scheduleId].restaurantId)
    ensures Update(db, Some(user), Some(restaurant), scheduleId, body) ==
              Outcome(db, Err(StatusNotFound, ScheduleNotFound))
    ensures Destroy(db, Some(user), Some(restaurant), scheduleId) ==
              Outcome(db, Err(StatusNotFound, ScheduleNotFound))
  {
  }

  /** A missing start or end time gives 422 with the fixed message from
      create, and from update once the schedule is found; nothing is
      written. */
  lemma MissingTimesAreRequired(db: Store, user: User, restaurant: Restaurant,
                                scheduleId: ScheduleId, body: Body)
    requires Valid(db)
    requires IsOwner(user, restaurant)
    requires !TimesPresent(body)
    ensures Create(db, Some(user), Some(restaurant), body) ==
              Outcome(db, Err(StatusUnprocessable, TimesRequired))
    ensures FindOwned(db, scheduleId, restaurant).Some? ==>
              Update(db, Some(user), Some(restaurant), scheduleId, body) ==
                Outcome(db, Err(StatusUnprocessable, TimesRequired))
  {
  }

  /** Present times that the validators reject give 422 with the
      validator's failure, from create and from update once the schedule is
      found; nothing is written. An end equal to or before the start is a
      range failure. */
  lemma RejectedTimesAreUnprocessable(db: Store, user: User, restaurant: Restaurant,
                                      scheduleId: ScheduleId, start: TimeValue, end: TimeValue)
    requires Valid(db)
    requires IsOwner(user, restaurant)
    requires ValidateTimes(start, end).Some?
    ensures var body := Body(Some(start), Some(end));
      && Create(db, Some(user), Some(restaurant), body) ==
           Outcome(db, Err(StatusUnprocessable, Invalid(ValidateTimes(start, end).value)))
      && (FindOwned(db, scheduleId, restaurant).Some? ==>
           Update(db, Some(user), Some(restaurant), scheduleId, body) ==
             Outcome(db, Err(StatusUnprocessable, Invalid(ValidateTimes(start, end).value))))
    ensures ValidTime(start) && ValidTime(end) && end.second <= start.second ==>
              ValidateTimes(start, end) == Some(InvalidRange)
  {
  }

  /** Restaurants loaded from the store never make create fail with 500. */
  lemma LoadedRestaurantNeverFaults(db: Store, user: Option<User>, restaurant: Restaurant, body: Body)
    requires Valid(db)
    requires Loaded(db, restaurant)
    ensures Create(db, user, Some(restaurant), body).response.status != StatusInternalError
  {
  }

  /** A successful create adds exactly the new schedule to its restaurant's
      list and leaves every other restaurant's list as it was. */
  lemma CreatedScheduleIsListed(db: Store, user: Option<User>,
                                restaurant: Option<Restaurant>, body: Body,
                                other: RestaurantId)
    requires Valid(db)
    requires Create(db, user, restaurant, body).response.Ok?
    ensures var o := Create(db, user, restaurant, body);
      var s := o.response.value;
      && SchedulesOf(o.store, s.restaurantId) == SchedulesOf(db, s.restaurantId) + {s}
      && (other != s.restaurantId ==> SchedulesOf(o.store, other) == SchedulesOf(db, other))
  {
  }

  /** A successful update replaces the old row by the new one in the
      restaurant's list and changes nothing else in it. */
  lemma UpdatedScheduleIsListed(db: Store, user: Option<User>,
                                restaurant: Option<Restaurant>,
                                scheduleId: ScheduleId, body: Body)
    requires Valid(db)
    requires Update(db, user, restaurant, scheduleId, body).response.Ok?
    ensures var o := Update(db, user, restaurant, scheduleId, body);
      var s := o.response.value;
      SchedulesOf(o.store, s.restaurantId) ==
        SchedulesOf(db, s.restaurantId) - {db.schedules[scheduleId]} + {s}
  {
  }

  /** A successful destroy removes exactly the target from its restaurant's
      list, and destroying the same id again is "not found". */
  lemma DestroyedScheduleIsGone(db: Store, user: Option<User>,
                                restaurant: Option<Restaurant>,
                                scheduleId: ScheduleId)
    requires Valid(db)
    requires Destroy(db, user, restaurant, scheduleId).response.Ok?
    ensures var o := Destroy(db, user, restaurant, scheduleId);
      var gone := db.schedules[scheduleId];
      && SchedulesOf(o.store, gone.restaurantId) == SchedulesOf(db, gone.restaurantId) - {gone}
      && Destroy(o.store, user, restaurant, scheduleId) ==
           Outcome(o.store, Err(StatusNotFound, ScheduleNotFound))
  {
  }

  /** After a restaurant is deleted its list is empty, and every other
      restaurant's list is as it was. */
  lemma CascadeEmptiesTheList(db: Store, restaurantId: RestaurantId,
                              other: RestaurantId)
    requires Valid(db)
    ensures SchedulesOf(DeleteRestaurant(db, restaurantId), restaurantId) == {}
    ensures other != restaurantId ==>
              SchedulesOf(DeleteRestaurant(db, restaurantId), other) == SchedulesOf(db, other)
  {
  }

  /** Deleting one restaurant leaves every other restaurant exactly as it
      was, so a request for another restaurant still finds it loaded. */
  lemma CascadeKeepsOtherRestaurantsLoaded(db: Store, restaurantId: RestaurantId,
                                           restaurant: Restaurant)
    requires Valid(db)
    requires Loaded(db, restaurant)
    requires restaurant.id != Some(restaurantId)
    ensures Loaded(DeleteRestaurant(db, restaurantId), restaurant)
  {
  }

  /** Repeating a successful update with the same payload changes nothing
      more. */
  lemma UpdateIsIdempotent(db: Store, user: Option<User>, restaurant: Option<Restaurant>,
                           scheduleId: ScheduleId, body: Body)
    requires Valid(db)
    requires Update(db, user, restaurant, scheduleId, body).response.Ok?
    ensures var o := Update(db, user, restaurant, scheduleId, body);
      Update(o.store, user, restaurant, scheduleId, body) == o
  {
  }

  /** Every handler, and the cascading delete, keeps every stored schedule's
      times well formed and ordered. */
  lemma HandlersKeepTimesOrdered(db: Store, user: Option<User>, restaurant: Option<Restaurant>,
                                 scheduleId: ScheduleId, body: Body, restaurantId: RestaurantId)
    requires Valid(db) && TimesOrdered(db)
    ensures TimesOrdered(Create(db, user, restaurant, body).store)
    ensures TimesOrdered(Update(db, user, restaurant, scheduleId, body).store)
    ensures TimesOrdered(Destroy(db, user, restaurant, scheduleId).store)
    ensures TimesOrdered(DeleteRestaurant(db, restaurantId))
  {
  }

  /** The two worked scenarios: the owner creating 09:00-08:00 gets 422 and
      nothing is stored; the owner creating 09:00-18:00 gets 201, and the
      new row carries the restaurant's id and is listed for it. */
  lemma OwnerScenarios(db: Store, owner: User, restaurantId: RestaurantId)
    requires Valid(db)
    requires restaurantId in db.restaurants && db.restaurants[restaurantId] == owner.id
    ensures var r := Restaurant(Some(restaurantId), owner.id);
      var nine := Clock(9 * 3600);
      Create(db, Some(owner), Some(r), Body(Some(nine), Some(Clock(8 * 3600)))) ==
        Outcome(db, Err(StatusUnprocessable, Invalid(InvalidRange)))
    ensures var r := Restaurant(Some(restaurantId), owner.id);
      var o := Create(db, Some(owner), Some(r), Body(Some(Clock(9 * 3600)), Some(Clock(18 * 3600))));
      && o.response.Ok? && o.response.status == StatusCreated
      && o.response.value.restaurantId == restaurantId
      && o.response.value in SchedulesOf(o.store, restaurantId)
  {
  }

  /** One request to the schedule core, or the deletion of a restaurant
      elsewhere in the system. */
  datatype Event =
    | CreateRequest(user: Option<User>, restaurant: Option<Restaurant>, body: Body)
    | UpdateRequest(user: Option<User>, restaurant: Option<Restaurant>,
                    scheduleId: ScheduleId, body: Body)
    | DestroyRequest(user: Option<User>, restaurant: Option<Restaurant>, scheduleId: ScheduleId)
    | RestaurantDeleted(restaurantId: RestaurantId)

  /** The store after one event: a handler's write, or the cascade. */
  function Step(db: Store, e: Event): (db': Store)
    requires Valid(db)
    ensures Valid(db')
    ensures TimesOrdered(db) ==> TimesOrdered(db')
    ensures db'.restaurants.Keys <= db.restaurants.Keys
  {
    match e
    case CreateRequest(user, restaurant, body) => Create(db, user, restaurant, body).store
    case UpdateRequest(user, restaurant, id, body) => Update(db, user, restaurant, id, body).store
    case DestroyRequest(user, restaurant, id) => Destroy(db, user, restaurant, id).store
    case RestaurantDeleted(rid) => DeleteRestaurant(db, rid)
  }

  /** The store after a history of events, applied in order. Whatever the
      history, the foreign keys still resolve and keys stay unique. */
  function Run(db: Store, events: seq<Event>): (db': Store)
    requires Valid(db)
    ensures Valid(db')
    ensures db'.restaurants.Keys <= db.restaurants.Keys
    decreases |events|
  {
    if events == [] then db else Run(Step(db, events[0]), events[1..])
  }

  /** Whatever the history, every stored schedule keeps well-formed times
      with the end strictly after the start. */
  lemma {:induction false} HistoryKeepsTimesOrdered(db: Store, events: seq<Event>)
    requires Valid(db) && TimesOrdered(db)
    ensures TimesOrdered(Run(db, events))
    decreases |events|
  {
    if events != [] {
      HistoryKeepsTimesOrdered(Step(db, events[0]), events[1..]);
    }
  }

  /** Starting from no schedules, every store a history can reach is valid,
      and each of its schedules has ordered times and belongs to a
      restaurant that still exists. */
  lemma ReachableStoresAreSound(restaurants: map<RestaurantId, UserId>, events: seq<Event>)
    ensures var db := Run(Store(restaurants, map[], 0), events);
      && Valid(db) && TimesOrdered(db)
      && forall s :: s in db.schedules.Values ==> s.restaurantId in db.restaurants
  {
    HistoryKeepsTimesOrdered(Store(restaurants, map[], 0), events);
  }
}
