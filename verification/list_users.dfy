/** `ListUsersQueryHandler.handle`: resolve the current user, authorize
    managing the USER role, hand the paging and sorting values to the read
    gateway, and turn its `None` answer into `SortingError`. */
module ListUsers {
  import opened Wrappers
  import opened Errors
  import opened QueryParams
  import opened Ports

  datatype ListUsersQueryRequest = ListUsersQueryRequest(
    limit: int,
    offset: int,
    sortingField: string,
    sortingOrder: SortingOrder)

  /** A domain event the handler could publish. */
  datatype Event = Event(name: string)

  /** What each collaborator answers. `pagination` is the error the page
      window's constructor raises for a limit and offset, or `None`;
      `readAll` answers `None` for a sorting column it does not accept. */
  datatype ListPorts = ListPorts(
    currentUser: Result<CurrentUser, AppError>,
    authorize: (CurrentUser, UserRole) -> Option<AppError>,
    pagination: (int, int) -> Option<AppError>,
    readAll: UserListParams -> Result<Option<seq<UserQueryModel>>, AppError>)

  datatype ListOutcome = ListOutcome(
    result: Result<seq<UserQueryModel>, AppError>,
    trace: seq<Call>,
    events: seq<Event>)

  /** The gateway parameters built from the request. */
  function ParamsOf(req: ListUsersQueryRequest): (p: UserListParams)
    ensures p.limit == req.limit && p.offset == req.offset
    ensures p.sorting.sortingField == req.sortingField && p.sorting.sortingOrder == req.sortingOrder
  {
    UserListParams(req.limit, req.offset, Sorting(req.sortingField, req.sortingOrder))
  }

  /** The current user is known and may manage the USER role. */
  predicate Admitted(ports: ListPorts)
  {
    ports.currentUser.Ok? && ports.authorize(ports.currentUser.value, User).None?
  }

  function Handle(req: ListUsersQueryRequest, ports: ListPorts): (r: ListOutcome)
    ensures GuardedByAuthorization(r.trace)
    ensures r.events == []
    // a query: nothing is staged, flushed or committed
    ensures forall i :: 0 <= i < |r.trace| ==> !IsWrite(r.trace[i].port)
    // an unknown current user stops everything
    ensures ports.currentUser.Err? ==> r.result == Err(ports.currentUser.error) && |r.trace| == 1
    // authorization against USER comes second, and a denial stops the read
    ensures ports.currentUser.Ok? ==>
      |r.trace| >= 2 && r.trace[1].port == Authorize(ports.currentUser.value, User)
    ensures ports.currentUser.Ok? && ports.authorize(ports.currentUser.value, User).Some? ==>
      && r.result == Err(ports.authorize(ports.currentUser.value, User).value)
      && forall i :: 0 <= i < |r.trace| ==> !r.trace[i].port.ReadAllUsers?
    // the page window is built third, and a refused window stops the read
    ensures Admitted(ports) ==>
      |r.trace| >= 3 && r.trace[2].port == BuildPagination(req.limit, req.offset)
    ensures Admitted(ports) && ports.pagination(req.limit, req.offset).Some? ==>
      && r.result == Err(ports.pagination(req.limit, req.offset).value)
      && forall i :: 0 <= i < |r.trace| ==> !r.trace[i].port.ReadAllUsers?
    // the gateway sees the request's values
    ensures forall i :: 0 <= i < |r.trace| && r.trace[i].port.ReadAllUsers? ==>
      i == 3 && r.trace[i].port.params == ParamsOf(req)
    // the gateway's list is the answer; its error propagates unchanged;
    // None from it is a sorting error, never an empty page
    ensures r.result.Ok? ==>
      && |r.trace| == 4
      && ports.readAll(ParamsOf(req)) == Ok(Some(r.result.value))
    ensures |r.trace| == 4 && ports.readAll(ParamsOf(req)).Err? ==>
      r.result == Err(ports.readAll(ParamsOf(req)).error)
    ensures |r.trace| == 4 && ports.readAll(ParamsOf(req)) == Ok(None) ==> r.result == Err(SortingError)
  {
    var t0 := [Call(GetCurrentUser, ports.currentUser.Ok?)];
    if ports.currentUser.Err? then ListOutcome(Err(ports.currentUser.error), t0, [])
    else
      var subject := ports.currentUser.value;
      var denial := ports.authorize(subject, User);
      var t1 := t0 + [Call(Authorize(subject, User), denial.None?)];
      if denial.Some? then ListOutcome(Err(denial.value), t1, [])
      else
        var refused := ports.pagination(req.limit, req.offset);
        var t2 := t1 + [Call(BuildPagination(req.limit, req.offset), refused.None?)];
        assert t2[1].port.Authorize? && t2[1].ok;
        if refused.Some? then ListOutcome(Err(refused.value), t2, [])
        else
          var params := ParamsOf(req);
          var users := ports.readAll(params);
          var t3 := t2 + [Call(ReadAllUsers(params), users.Ok?)];
          assert t3[1].port.Authorize? && t3[1].ok;
          match users
          case Err(e) => ListOutcome(Err(e), t3, [])
          case Ok(None) => ListOutcome(Err(SortingError), t3, [])
          case Ok(Some(list)) => ListOutcome(Ok(list), t3, [])
  }

  /** The handler answers with the gateway's list, empty or not, exactly
      when the user is authorized, the page window is accepted and the
      gateway returns a list; and it fails with `SortingError` exactly when
      the gateway returns `None` or a collaborator raises that error. */
  lemma ListAnswersIff(req: ListUsersQueryRequest, ports: ListPorts, users: seq<UserQueryModel>)
    ensures Handle(req, ports).result == Ok(users) <==>
      && Admitted(ports)
      && ports.pagination(req.limit, req.offset).None?
      && ports.readAll(ParamsOf(req)) == Ok(Some(users))
    ensures Handle(req, ports).result == Err(SortingError) <==>
      || (ports.currentUser == Err(SortingError))
      || (ports.currentUser.Ok? && ports.authorize(ports.currentUser.value, User) == Some(SortingError))
      || (Admitted(ports) && ports.pagination(req.limit, req.offset) == Some(SortingError))
      || (&& Admitted(ports)
          && ports.pagination(req.limit, req.offset).None?
          && ports.readAll(ParamsOf(req)) in {Ok(None), Err(SortingError)})
  {
  }
}
