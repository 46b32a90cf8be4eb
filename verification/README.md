# Schedule lifecycle of the DeliverUS backend, in Dafny

This project models the schedule part of the DeliverUS restaurant-ordering
backend. A restaurant owns time-range "schedules": a start time and an end
time. The controller `ScheduleController.js` has four request handlers:

- `indexRestaurant` lists a restaurant's schedules.
- `create` adds a schedule.
- `update` changes a schedule's times.
- `destroy` removes a schedule.

Each mutating handler runs a fixed chain of checks and answers with the
first one that fails:

1. a logged-in user, else 401;
2. a restaurant, else 404;
3. the user owns the restaurant, else 403;
4. for update and destroy, a schedule that belongs to this restaurant, else 404;
5. for create and update, present and valid times, else 422.

Only then does it write, once. The Sequelize model `Schedule.js` supplies the
row shape, the non-null columns and the restaurant foreign key with
`ON DELETE CASCADE`.

The database is an immutable value, `ScheduleStore.Store`. It holds the
restaurants table reduced to each restaurant's owner, the schedules table
keyed by primary key, and the auto-increment counter. Every handler is a pure
function from the store and the parts of the request to the new store and a
response (`Ok(status, value)` or `Err(status, message)`). `indexRestaurant`
is a method that walks the primary keys in order and only reads the store.
`ScheduleStore.Valid` is the store's integrity invariant: rows are filed
under their own key, keys come from the counter, and foreign keys resolve.
Every operation preserves it.

Modules, one per component:

- `Wrappers`: `Option`.
- `TimeRange`: the two time validators.
- `ScheduleStore`: the `Schedule` row, the store and the ORM calls the controller makes.
- `ScheduleController`: the four handlers.
- `ScheduleProperties`: lemmas that relate the handlers to each other and to the list query, and `Run`, which applies any history of requests and restaurant deletions, with the invariants every reachable store keeps.
- `ScheduleRoutes`: which controller member each route names.

Modelling choices:

- The time validators come from `ScheduleValidation.js`, which is not part of
  this model. A time value is what they read from the request: a second of
  the day (`TimeRange.Clock`) or unreadable text. `ValidTime` means a second
  in [0, 86400). `EndAfterStart` means strictly later on the same day. No
  text pattern is claimed.
- The list handler rejects a restaurant whose id JavaScript treats as
  false: a missing id, and also the id 0 (`ScheduleController.HasTruthyId`).
- A body field that JavaScript treats as false (absent, `null`, `""`) is
  `None`.
- The request's restaurant may lack an `id`, because `indexRestaurant` tests
  for that. In `create`, such a restaurant reaches the insert with a null
  `restaurantId`. The column refuses null, so the handler answers 500. The
  same happens for a restaurant the store does not hold, because of the
  foreign key. This is the only 500 the model produces.
  `ScheduleProperties.LoadedRestaurantNeverFaults` shows that a restaurant
  loaded from the store never causes it.
- Two behaviours of the code worth stating:
  - `indexRestaurant` does not check for a logged-in user. The list route
    runs `isLoggedIn` before it (`ScheduleRoutes.js`, line 13), and that
    middleware is not part of this model.
  - `findAll` at `ScheduleController.js`, lines 13-15, gives no order clause. The model lists in
    primary-key order.

## Model

| member | source | states |
|---|---|---|
| TimeRange.ValidateTimes | DeliverUS-Backend/src/controllers/ScheduleController.js:52-58 | passes exactly when both times are well formed and the end is strictly after the start; a malformed start or end is a format failure; an end at or before the start is a range failure; an accepted pair is an interval inside one day |
| TimeRange.ValidatorRejectsEqualOrSwapped | DeliverUS-Backend/src/controllers/ScheduleController.js:53-55 | the validator sequence never accepts equal times (a range failure when they are well formed); accepting a pair means rejecting the swapped pair as a range failure; two accepted back-to-back intervals compose into an accepted one |
| TimeRange.ValidatorAcceptsOneOrderOfDistinctTimes | DeliverUS-Backend/src/controllers/ScheduleController.js:53-55 | of two distinct well-formed times the validator sequence accepts exactly one order and rejects the other as a range failure |
| ScheduleStore.Find | DeliverUS-Backend/src/controllers/ScheduleController.js:93 | the primary-key lookup finds a row exactly when the key is stored, and that row carries the key |
| ScheduleStore.Insert | DeliverUS-Backend/src/models/Schedule.js:17-50 | the insert is refused exactly when the restaurant id is null or names no restaurant; otherwise it adds one row with the given times under a fresh key, leaves every existing row and the restaurants unchanged, and keeps the store valid |
| ScheduleStore.SetTimes | DeliverUS-Backend/src/controllers/ScheduleController.js:113 | the instance update changes only the two time columns of one row: same keys, same id and restaurant for that row, every other row unchanged, store still valid |
| ScheduleStore.Remove | DeliverUS-Backend/src/controllers/ScheduleController.js:148 | the instance destroy removes exactly that key and leaves every other row unchanged |
| ScheduleStore.DeleteRestaurant | DeliverUS-Backend/src/models/Schedule.js:48 | deleting a restaurant removes exactly the schedules with its id, leaves every other schedule and every other restaurant's owner unchanged, and keeps the foreign keys valid |
| ScheduleStore.EachScheduleHasOneRestaurant | DeliverUS-Backend/src/models/Schedule.js:12 | a stored schedule's restaurant exists, and the schedule is listed under that restaurant and under no other |
| ScheduleController.FindOwned | DeliverUS-Backend/src/controllers/ScheduleController.js:93-96 | the lookup succeeds exactly when the row exists and belongs to the request's restaurant; a row of another restaurant is not found |
| ScheduleController.CheckPayload | DeliverUS-Backend/src/controllers/ScheduleController.js:46-58 | the payload passes exactly when both times are present, well formed and the end is after the start; a missing time gives the "startTime and endTime are required" message; present times give the failure of the validator that rejects them: a format failure when either is malformed, otherwise a range failure |
| ScheduleController.IndexRestaurant | DeliverUS-Backend/src/controllers/ScheduleController.js:6-23 | without a restaurant, or with a restaurant whose id is missing or 0 (falsy), 404 "Restaurant not found" whatever the store holds; otherwise 200 with exactly the schedules whose restaurant id matches, each once, in increasing key order |
| ScheduleController.Create | DeliverUS-Backend/src/controllers/ScheduleController.js:26-73 | every failure leaves the store unchanged; a 201 requires an authorised owner and acceptable times, and adds exactly one row with the payload's times and the restaurant's id under a fresh key, every existing row untouched; the store stays valid |
| ScheduleController.Update | DeliverUS-Backend/src/controllers/ScheduleController.js:75-121 | every failure leaves the store unchanged; a 200 requires an authorised owner, a row of this restaurant and acceptable times, and changes only that row's two time fields, answering with the new row |
| ScheduleController.Destroy | DeliverUS-Backend/src/controllers/ScheduleController.js:124-156 | every failure leaves the store unchanged; a 200 with the confirmation text requires an authorised owner and a row of this restaurant, and removes exactly that row |
| ScheduleProperties.CreateStatus | DeliverUS-Backend/src/controllers/ScheduleController.js:28-67 | each status of create characterised in both directions: 401 exactly without a user, 404 exactly with a user and no restaurant, 403 exactly for a non-owner, 422 exactly for an authorised request with an unacceptable payload, 201 or 500 otherwise depending on whether the restaurant id resolves; the 401 carries "User is not logged in" and the 404 "Restaurant does not exist" |
| ScheduleProperties.UpdateStatus | DeliverUS-Backend/src/controllers/ScheduleController.js:77-115 | each status of update characterised in both directions, with the schedule lookup after ownership and before the payload check; update never answers 500; the 401 carries "User is not logged in", the missing-restaurant 404 "Restaurant does not exist", the schedule 404 "Schedule not found" |
| ScheduleProperties.DestroyStatus | DeliverUS-Backend/src/controllers/ScheduleController.js:126-150 | each status of destroy characterised in both directions; destroy never answers 422 or 500; the 401 carries "User is not logged in", the missing-restaurant 404 "Restaurant does not exist", the schedule 404 "Schedule not found" |
| ScheduleProperties.NonOwnerIsForbidden | DeliverUS-Backend/src/controllers/ScheduleController.js:38-43 | a logged-in non-owner gets 403 from create, update and destroy (also lines 88-90 and 137-139), whatever the payload or schedule id, and the store is unchanged |
| ScheduleProperties.CrossTenantScheduleIsNotFound | DeliverUS-Backend/src/controllers/ScheduleController.js:92-96 | for the owner, a schedule of another restaurant gives 404 "Schedule not found" from update and destroy (also lines 141-145), whatever the payload, with the store unchanged |
| ScheduleProperties.MissingTimesAreRequired | DeliverUS-Backend/src/controllers/ScheduleController.js:48-50 | a missing start or end time gives 422 "startTime and endTime are required" from create, and from update once the schedule is found (lines 100-102); nothing is written |
| ScheduleProperties.RejectedTimesAreUnprocessable | DeliverUS-Backend/src/controllers/ScheduleController.js:52-58 | present times the validators reject give 422 with the validator's failure from create and update (lines 104-110); nothing is written; an end at or before the start is a range failure |
| ScheduleProperties.LoadedRestaurantNeverFaults | DeliverUS-Backend/src/controllers/ScheduleController.js:61-65 | when the request's restaurant is the stored one, create never answers 500 |
| ScheduleProperties.CreatedScheduleIsListed | DeliverUS-Backend/src/controllers/ScheduleController.js:61-67 | after a successful create, the restaurant's list is the old list plus the new schedule, and every other restaurant's list is unchanged |
| ScheduleProperties.UpdatedScheduleIsListed | DeliverUS-Backend/src/controllers/ScheduleController.js:112-115 | after a successful update, the restaurant's list has the old row replaced by the new one and nothing else changed |
| ScheduleProperties.DestroyedScheduleIsGone | DeliverUS-Backend/src/controllers/ScheduleController.js:147-150 | after a successful destroy, the restaurant's list lacks exactly the removed row, and destroying the same id again gives 404 |
| ScheduleProperties.CascadeEmptiesTheList | DeliverUS-Backend/src/models/Schedule.js:40-50 | after a restaurant is deleted its list is empty and every other restaurant's list is unchanged |
| ScheduleProperties.CascadeKeepsOtherRestaurantsLoaded | DeliverUS-Backend/src/models/Schedule.js:48 | deleting one restaurant leaves every other restaurant as it was, so a request for another restaurant still matches the store |
| ScheduleProperties.UpdateIsIdempotent | DeliverUS-Backend/src/controllers/ScheduleController.js:113-115 | repeating a successful update with the same payload yields the same store and response |
| ScheduleProperties.HandlersKeepTimesOrdered | DeliverUS-Backend/src/controllers/ScheduleController.js:52-67 | create, update, destroy and the cascading delete keep every stored schedule's times well formed with the end after the start |
| ScheduleProperties.OwnerScenarios | DeliverUS-Backend/src/controllers/ScheduleController.js:26-67 | the owner creating 09:00 to 08:00 gets a 422 range failure with nothing stored; 09:00 to 18:00 gets 201 with the restaurant's id, and the new row is listed for that restaurant |
| ScheduleProperties.Step | DeliverUS-Backend/src/controllers/ScheduleController.js:159-164 | one event, a request to one of the exported handlers or a restaurant deletion with its cascade, keeps the store valid and keeps stored times ordered, and never adds a restaurant |
| ScheduleProperties.Run | DeliverUS-Backend/src/models/Schedule.js:40-50 | after any history of events the store is still valid, so keys stay unique and every schedule's restaurant id refers to an existing restaurant |
| ScheduleProperties.HistoryKeepsTimesOrdered | DeliverUS-Backend/src/controllers/ScheduleController.js:52-67 | after any history of events, starting from ordered times, every stored schedule still has well-formed times with the end after the start (proof by induction on the history) |
| ScheduleProperties.ReachableStoresAreSound | DeliverUS-Backend/src/models/Schedule.js:17-50 | every store reachable from one without schedules is valid, has ordered times, and each schedule names a restaurant that exists |
| ScheduleRoutes.Exported | DeliverUS-Backend/src/controllers/ScheduleController.js:159-164 | the controller object exports exactly indexRestaurant, create, update and destroy |
| ScheduleRoutes.ListRouteUnboundAsWritten | DeliverUS-Backend/src/routes/ScheduleRoutes.js:12-14 | as written, the list route names a member the controller does not export, while the other three names resolve to exported handlers |
| ScheduleRoutes.HandlerName | DeliverUS-Backend/src/routes/ScheduleRoutes.js:11-41 | with the list route naming indexRestaurant, every route reaches its intended handler |

## Left out

- The HTTP layer: Express, the middlewares, request parsing and response serialisation. The routes file is modelled only for which member each route names. The middlewares that run before the controller (`isLoggedIn`, `hasRole`, `checkEntityExists`, `checkRestaurantOwnership`, `handleValidation`) are not part of this model. The handlers take the user, the restaurant and the body as inputs.
- `async`/`await`, `console.error` logging, and the catch-all 500 for an exception thrown by the database (a lost connection, say). The one 500 the model does produce is the refused insert described above.
- `ScheduleValidation.js` is not part of this model. The validators are predicates over a second of the day. Their messages appear as the failure kind (`InvalidFormat`, `InvalidRange`) rather than as text.
- The `createdAt`/`updatedAt` timestamps. The engine manages them, and `Schedule.js` declares them only inside a comment.
- `onUpdate: 'CASCADE'`. The model never changes restaurant ids.
- The `hasMany(Product, scheduleId)` association and every product-side behaviour. The Product model and its foreign-key rule are not part of this model. The association adds no column to a schedule row; its effect on deleting a schedule is covered by the `ScheduleProperties.DestroyStatus` line below.
- ScheduleProperties.DestroyStatus: a delete refused by a product's foreign key on `scheduleId` (which would surface as the 500 of `ScheduleController.js`, lines 152-154) is not modelled. The migration that fixes that rule is not part of this model. The model assumes the `hasMany` default, ON DELETE SET NULL, under which a schedule delete is never refused.
- ScheduleController.IndexRestaurant: the increasing primary-key order of the list is a choice of the model. `findAll` at `ScheduleController.js`, lines 13-15, gives no order clause. Only the membership and the absence of duplicates reflect the code.
- Concurrency: each handler is one atomic step on the store value.
- The `:scheduleId` route parameter is taken as an already-parsed key. Non-numeric text is not modelled.
- A truthy body value that is not text (a number, say) is not distinguished from a time value the validators cannot read.

## Findings

| source | as written | input that shows it | evidently intended | confidence | as-written member | corrected member |
|---|---|---|---|---|---|---|
| DeliverUS-Backend/src/routes/ScheduleRoutes.js:14 | the GET list route is bound to `ScheduleController.index` | the list route: the controller exports `indexRestaurant`, `create`, `update`, `destroy` and no `index`, so `.get(isLoggedIn, ScheduleController.index)` is handed `undefined`; Express refuses a handler that is not a function when the route is declared, so `loadScheduleRoutes` throws there and the POST, PUT and DELETE routes declared after it are never registered | bind the route to `ScheduleController.indexRestaurant` | high, not executed | ScheduleRoutes.ListRouteUnboundAsWritten | ScheduleRoutes.HandlerName |
