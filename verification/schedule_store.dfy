/** The part of the database the schedule core touches, as an immutable
    value: the Restaurants table (reduced to each restaurant's owner), the
    Schedules table keyed by primary key, and the auto-increment counter
    that assigns new primary keys. The operations are the ORM calls the
    controller makes, with the column constraints the Schedule model
    declares. */
module ScheduleStore {

  import opened Wrappers
  import opened TimeRange

  type ScheduleId = nat
  type RestaurantId = nat
  type UserId = nat

  /** A row of the Schedules table. The three columns are declared
      `allowNull: false`, so none of them is optional here: a row that would
      hold a null cannot be built, and `Insert` refuses a missing
      restaurant id. */
  datatype Schedule = Schedule(
    id: ScheduleId,
    startTime: TimeValue,
    endTime: TimeValue,
    restaurantId: RestaurantId)

  /** `restaurants` maps each restaurant's id to its owner's user id;
      every primary key already handed out is below `nextId`. */
  datatype Store = Store(
    restaurants: map<RestaurantId, UserId>,
    schedules: map<ScheduleId, Schedule>,
    nextId: ScheduleId)

  /** The store's integrity: each row is filed under its own primary key,
      that key was handed out by the counter, and the row's restaurant id
      refers to an existing restaurant (the foreign key). */
  ghost predicate Valid(db: Store)
  {
    forall id :: id in db.schedules ==>
      && db.schedules[id].id == id
      && id < db.nextId
      && db.schedules[id].restaurantId in db.restaurants
  }

  /** Every schedule of one restaurant: what `findAll` with a
      `restaurantId` filter selects. */
  function SchedulesOf(db: Store, restaurantId: RestaurantId): set<Schedule>
  {
    set s | s in db.schedules.Values && s.restaurantId == restaurantId
  }

  /** `findByPk`. */
  function Find(db: Store, id: ScheduleId): (r: Option<Schedule>)
    requires Valid(db)
    ensures r.Some? <==> id in db.schedules
    ensures r.Some? ==> r.value == db.schedules[id] && r.value.id == id
  {
    if id in db.schedules then Some(db.schedules[id]) else None
  }

  /** `Schedule.create`: a new row under a fresh primary key. The write is
      refused, as the database refuses it, when the restaurant id is null
      (`allowNull: false`) or names no restaurant (the foreign key). */
  function Insert(db: Store, startTime: TimeValue, endTime: TimeValue,
                  restaurantId: Option<RestaurantId>): (r: Option<(Store, Schedule)>)
    requires Valid(db)
    ensures r.None? <==> restaurantId.None? || restaurantId.value !in db.restaurants
    ensures r.Some? ==>
      var (db', s) := r.value;
      && s.id !in db.schedules
      && s.startTime == startTime
      && s.endTime == endTime
      && Some(s.restaurantId) == restaurantId
      && db'.schedules.Keys == db.schedules.Keys + {s.id}
      && db'.schedules[s.id] == s
      && (forall id :: id in db.schedules ==> db'.schedules[id] == db.schedules[id])
      && db'.restaurants == db.restaurants
      && Valid(db')
  {
    if restaurantId.None? || restaurantId.value !in db.restaurants then None
    else
      var s := Schedule(db.nextId, startTime, endTime, restaurantId.value);
      Some((db.(schedules := db.schedules[s.id := s], nextId := db.nextId + 1), s))
  }

  /** `schedule.update({ startTime, endTime })` on a row already read:
      only the two time columns of that one row change. */
  function SetTimes(db: Store, id: ScheduleId, startTime: TimeValue, endTime: TimeValue): (db': Store)
    requires Valid(db)
    requires id in db.schedules
    ensures db'.schedules.Keys == db.schedules.Keys
    ensures db'.schedules[id].id == id
    ensures db'.schedules[id].restaurantId == db.schedules[id].restaurantId
    ensures db'.schedules[id].startTime == startTime
    ensures db'.schedules[id].endTime == endTime
    ensures forall k :: k in db.schedules && k != id ==> db'.schedules[k] == db.schedules[k]
    ensures db'.restaurants == db.restaurants && db'.nextId == db.nextId
    ensures Valid(db')
  {
    var row := db.schedules[id];
    db.(schedules := db.schedules[id := row.(startTime := startTime, endTime := endTime)])
  }

  /** `schedule.destroy()` on a row already read: exactly that row goes. */
  function Remove(db: Store, id: ScheduleId): (db': Store)
    requires Valid(db)
    ensures db'.schedules.Keys == db.schedules.Keys - {id}
    ensures forall k :: k in db'.schedules ==> db'.schedules[k] == db.schedules[k]
    ensures db'.restaurants == db.restaurants && db'.nextId == db.nextId
    ensures Valid(db')
  {
    db.(schedules := db.schedules - {id})
  }

  /** Deleting a restaurant: the foreign key is `ON DELETE CASCADE`, so all
      of its schedules go with it and no other schedule is touched. */
  function DeleteRestaurant(db: Store, restaurantId: RestaurantId): (db': Store)
    requires Valid(db)
    ensures db'.restaurants.Keys == db.restaurants.Keys - {restaurantId}
    ensures forall r :: r in db'.restaurants ==> db'.restaurants[r] == db.restaurants[r]
    ensures forall k :: k in db'.schedules <==>
                          k in db.schedules && db.schedules[k].restaurantId != restaurantId
    ensures forall k :: k in db'.schedules ==> db'.schedules[k] == db.schedules[k]
    ensures db'.nextId == db.nextId
    ensures Valid(db')
  {
    db.(restaurants := db.restaurants - {restaurantId},
        schedules := map k | k in db.schedules && db.schedules[k].restaurantId != restaurantId
                           :: db.schedules[k])
  }

  /** Each stored schedule belongs to exactly one restaurant, one that
      exists: it is listed under its own restaurant and under no other. */
  lemma EachScheduleHasOneRestaurant(db: Store, s: Schedule, other: RestaurantId)
    requires Valid(db)
    requires s in db.schedules.Values
    ensures s.restaurantId in db.restaurants
    ensures s in SchedulesOf(db, s.restaurantId)
    ensures s in SchedulesOf(db, other) <==> other == s.restaurantId
  {
  }
}
