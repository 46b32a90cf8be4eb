/** Which controller member each schedule route is bound to. Only the
    binding by name is modelled; middleware order and HTTP wiring are not. */
module ScheduleRoutes {

  import opened Wrappers

  /** The members of the exported controller object. */
  datatype Handler = IndexRestaurant | Create | Update | Destroy

  /** The four routes of the schedule resource. */
  datatype Route =
    | ListSchedules     // GET    /restaurants/:restaurantId/schedules
    | CreateSchedule    // POST   /restaurants/:restaurantId/schedules
    | UpdateSchedule    // PUT    /restaurants/:restaurantId/schedules/:scheduleId
    | DeleteSchedule    // DELETE /restaurants/:restaurantId/schedules/:scheduleId

  /** Property lookup on the exported controller object: undefined (None)
      for any name it does not export. */
  function Exported(name: string): (h: Option<Handler>)
    ensures h.Some? <==> name in {"indexRestaurant", "create", "update", "destroy"}
    ensures h == Some(IndexRestaurant) <==> name == "indexRestaurant"
  {
    if name == "indexRestaurant" then Some(IndexRestaurant)
    else if name == "create" then Some(Create)
    else if name == "update" then Some(Update)
    else if name == "destroy" then Some(Destroy)
    else None
  }

  /** The handler each route is meant to reach. */
  function Intended(route: Route): Handler
  {
    match route
    case ListSchedules => IndexRestaurant
    case CreateSchedule => Create
    case UpdateSchedule => Update
    case DeleteSchedule => Destroy
  }

  /** The controller property each route names, as the routes are written:
      the list route names `index`. */
  function HandlerNameAsWritten(route: Route): string
  {
    match route
    case ListSchedules => "index"
    case CreateSchedule => "create"
    case UpdateSchedule => "update"
    case DeleteSchedule => "destroy"
  }

  /** As written, the list route is bound to no handler at all. */
  lemma ListRouteUnboundAsWritten()
    ensures Exported(HandlerNameAsWritten(ListSchedules)).None?
    ensures forall r :: r != ListSchedules ==> Exported(HandlerNameAsWritten(r)) == Some(Intended(r))
  {
  }

  /** The corrected binding: the list route names `indexRestaurant`, and
      every route reaches its intended handler. */
  function HandlerName(route: Route): (name: string)
    ensures Exported(name) == Some(Intended(route))
  {
    match route
    case ListSchedules => "indexRestaurant"
    case CreateSchedule => "create"
    case UpdateSchedule => "update"
    case DeleteSchedule => "destroy"
  }
}
