/** `CreateUserCommandHandler.handle`: resolve the current user, authorize
    managing the requested role, build the value objects and the user, stage
    it, flush, commit, and return the new id. Every collaborator is an
    oracle; the commit is the unit of work's own. */
module CreateUser {
  import opened Wrappers
  import opened Errors
  import opened QueryParams
  import opened Ports
  import UnitOfWork

  datatype CreateUserCommand = CreateUserCommand(username: string, password: string, role: UserRole)

  /** The user the domain service builds. */
  datatype NewUser = NewUser(id: string, username: string, role: UserRole)

  /** What each collaborator answers. `authorize` gives the error it raises,
      or `None` when the policy is satisfied; `username` and `password` are
      the value-object constructors; `createUser` is the domain service;
      `flush` is the flusher's outcome; `commit` the engine's answer to the
      unit of work's commit. */
  datatype CreatePorts = CreatePorts(
    currentUser: Result<CurrentUser, AppError>,
    authorize: (CurrentUser, UserRole) -> Option<AppError>,
    username: string -> Result<string, AppError>,
    password: string -> Result<string, AppError>,
    createUser: (string, string, UserRole) -> Result<NewUser, AppError>,
    add: Option<AppError>,
    flush: Option<AppError>,
    commit: Option<StorageError>)

  datatype CreateOutcome = CreateOutcome(
    result: Result<string, AppError>,
    trace: seq<Call>,
    uow: UnitOfWork.Uow)

  /** The calls up to building the user, and the user built (or the error
      that stopped the handler first). */
  datatype Prepared = Prepared(trace: seq<Call>, user: Result<NewUser, AppError>)

  /** The current user is known and may manage the requested role. */
  predicate Admitted(req: CreateUserCommand, ports: CreatePorts)
  {
    ports.currentUser.Ok? && ports.authorize(ports.currentUser.value, req.role).None?
  }

  /** Admitted, and both value objects were built. */
  predicate ValueObjectsBuilt(req: CreateUserCommand, ports: CreatePorts)
  {
    Admitted(req, ports) && ports.username(req.username).Ok? && ports.password(req.password).Ok?
  }

  /** What the domain service answers for a request whose value objects were
      built. */
  function Built(req: CreateUserCommand, ports: CreatePorts): Result<NewUser, AppError>
    requires ValueObjectsBuilt(req, ports)
  {
    ports.createUser(ports.username(req.username).value, ports.password(req.password).value, req.role)
  }

  /** Steps before staging: current user, authorization, value objects and
      the domain service. None of them writes. */
  function Prepare(req: CreateUserCommand, ports: CreatePorts): (p: Prepared)
    ensures 0 < |p.trace| <= 5 && p.trace[0].port == GetCurrentUser
    ensures forall i :: 0 <= i < |p.trace| ==> !IsWrite(p.trace[i].port)
    ensures forall i :: 0 <= i < |p.trace| - 1 ==> p.trace[i].ok
    ensures forall i :: 0 <= i < |p.trace| && p.trace[i].port.Authorize? ==>
      p.trace[i].port.targetRole == req.role
    ensures forall i :: 0 <= i < |p.trace| && p.trace[i].port.CreateUserEntity? ==>
      p.trace[i].port.role == req.role
    ensures ports.currentUser.Ok? && ports.authorize(ports.currentUser.value, req.role).Some? ==>
      p.user == Err(ports.authorize(ports.currentUser.value, req.role).value)
    ensures p.user.Ok? ==>
      && |p.trace| == 5 && p.trace[4].ok && ports.currentUser.Ok?
      && p.trace[1] == Call(Authorize(ports.currentUser.value, req.role), true)
      && ports.username(req.username).Ok? && ports.password(req.password).Ok?
  {
    var t0 := [Call(GetCurrentUser, ports.currentUser.Ok?)];
    if ports.currentUser.Err? then Prepared(t0, Err(ports.currentUser.error))
    else
      var subject := ports.currentUser.value;
      var denial := ports.authorize(subject, req.role);
      var t1 := t0 + [Call(Authorize(subject, req.role), denial.None?)];
      if denial.Some? then Prepared(t1, Err(denial.value))
      else
        var username := ports.username(req.username);
        var t2 := t1 + [Call(BuildUsername(req.username), username.Ok?)];
        if username.Err? then Prepared(t2, Err(username.error))
        else
          var password := ports.password(req.password);
          var t3 := t2 + [Call(BuildPassword(req.password), password.Ok?)];
          if password.Err? then Prepared(t3, Err(password.error))
          else
            var user := ports.createUser(username.value, password.value, req.role);
            Prepared(t3 + [Call(CreateUserEntity(username.value, req.role), user.Ok?)], user)
  }

  function Handle(req: CreateUserCommand, ports: CreatePorts, uow: UnitOfWork.Uow): (r: CreateOutcome)
    // the call protocol
    ensures GuardedByAuthorization(r.trace) && CommitsAfterFlush(r.trace)
    ensures forall i :: 0 <= i < |r.trace| && r.trace[i].port.Authorize? ==>
      r.trace[i].port.targetRole == req.role
    ensures forall i :: 0 <= i < |r.trace| && r.trace[i].port.CreateUserEntity? ==>
      r.trace[i].port.role == req.role
    // a denied request stages nothing and commits nothing
    ensures ports.currentUser.Ok? && ports.authorize(ports.currentUser.value, req.role).Some? ==>
      && r.result == Err(ports.authorize(ports.currentUser.value, req.role).value)
      && (forall i :: 0 <= i < |r.trace| ==> !IsWrite(r.trace[i].port))
      && r.uow == uow
    // nothing is staged unless both value objects were built
    ensures (exists i :: 0 <= i < |r.trace| && IsWrite(r.trace[i].port)) ==>
      ports.username(req.username).Ok? && ports.password(req.password).Ok?
    // a failing add or flush is re-raised as is, and the commit is never reached
    ensures ports.add.Some? ==> Count(r.trace, FlushChanges) == 0 && Count(r.trace, CommitUow) == 0
    ensures ports.flush.Some? ==> Count(r.trace, CommitUow) == 0 && r.uow == uow
    ensures ports.flush.Some? && Count(r.trace, FlushChanges) > 0 ==> r.result == Err(ports.flush.value)
    // the commit, when reached, is made once and its outcome is kept
    ensures Count(r.trace, CommitUow) > 0 ==>
      && Count(r.trace, CommitUow) == 1
      && r.uow == UnitOfWork.Commit(uow, ports.commit).uow
      && (r.result.Err? <==> ports.commit.Some?)
      && (ports.commit.Some? ==> r.result == Err(DataMapper(CommitFailed)))
    // success: stage, flush and commit once each, in that order
    ensures r.result.Ok? ==>
      && |r.trace| == 8
      && r.trace[5].port == AddUser(r.result.value)
      && r.trace[6].port == FlushChanges
      && r.trace[7].port == CommitUow
      && (forall i :: 0 <= i < 5 ==> !IsWrite(r.trace[i].port))
      && r.uow == UnitOfWork.Commit(uow, None).uow
    // the unit of work changes only through the handler's commit
    ensures Count(r.trace, CommitUow) == 0 ==> r.uow == uow
  {
    var p := Prepare(req, ports);
    if p.user.Err? then
      ReadOnlyTrace(p.trace);
      CreateOutcome(Err(p.user.error), p.trace, uow)
    else
      var r := Persist(p.trace, p.user.value.id, ports.add, ports.flush, ports.commit, uow);
      ExtendedTrace(p.trace, r.trace, req.role);
      r
  }

  /** The prepared calls followed by writes: the requested role is still the
      only one authorized and created, and nothing before the writes wrote. */
  lemma ExtendedTrace(t4: seq<Call>, t: seq<Call>, role: UserRole)
    requires |t4| == 5 && 6 <= |t| <= 8
    requires forall i :: 0 <= i < 5 ==> t[i] == t4[i]
    requires t[5].port.AddUser? && (|t| > 6 ==> t[6].port == FlushChanges) && (|t| > 7 ==> t[7].port == CommitUow)
    requires forall i :: 0 <= i < 5 ==> !IsWrite(t4[i].port)
    requires forall i :: 0 <= i < 5 && t4[i].port.Authorize? ==> t4[i].port.targetRole == role
    requires forall i :: 0 <= i < 5 && t4[i].port.CreateUserEntity? ==> t4[i].port.role == role
    ensures forall i :: 0 <= i < |t| && t[i].port.Authorize? ==> t[i].port.targetRole == role
    ensures forall i :: 0 <= i < |t| && t[i].port.CreateUserEntity? ==> t[i].port.role == role
    ensures forall i :: 0 <= i < |t| ==> (IsWrite(t[i].port) <==> i >= 5)
  {
    forall i | 5 <= i < |t| ensures IsWrite(t[i].port) {
      if i == 6 {} else if i == 7 {}
    }
  }

  /** Steps after the user is built: stage it, flush, commit. */
  function Persist(t4: seq<Call>, id: string, add: Option<AppError>, flush: Option<AppError>,
                   commit: Option<StorageError>, uow: UnitOfWork.Uow): (r: CreateOutcome)
    requires |t4| == 5 && t4[0].port == GetCurrentUser && t4[1].port.Authorize? && t4[1].ok
    requires forall i :: 0 <= i < 5 ==> t4[i].ok && !IsWrite(t4[i].port)
    ensures 6 <= |r.trace| <= 8 && r.trace[5] == Call(AddUser(id), add.None?)
    ensures forall i :: 0 <= i < 5 ==> r.trace[i] == t4[i]
    ensures |r.trace| > 6 ==> r.trace[6] == Call(FlushChanges, flush.None?)
    ensures |r.trace| > 7 ==> r.trace[7].port == CommitUow
    ensures GuardedByAuthorization(r.trace) && CommitsAfterFlush(r.trace)
    ensures add.Some? ==>
      |r.trace| == 6 && r.result == Err(add.value) && Count(r.trace, FlushChanges) == 0
    ensures add.None? && flush.Some? ==> |r.trace| == 7 && r.result == Err(flush.value)
    ensures add.Some? || flush.Some? ==> Count(r.trace, CommitUow) == 0 && r.uow == uow
    ensures add.None? && flush.None? ==>
      && |r.trace| == 8
      && Count(r.trace, CommitUow) == 1
      && r.uow == UnitOfWork.Commit(uow, commit).uow
      && (commit.None? ==> r.result == Ok(id))
      && (commit.Some? ==> r.result == Err(DataMapper(CommitFailed)))
  {
    var t5 := t4 + [Call(AddUser(id), add.None?)];
    if add.Some? then
      AddedTrace(t4, t5, id, false);
      CreateOutcome(Err(add.value), t5, uow)
    else
      var t6 := t5 + [Call(FlushChanges, flush.None?)];
      AddedTrace(t4, t5, id, true);
      FlushedTrace(t5, t6, flush.None?);
      if flush.Some? then
        CreateOutcome(Err(flush.value), t6, uow)
      else
        CommitStep(t6, id, uow, commit)
  }

  /** The handler's last step: the unit of work's commit. */
  function CommitStep(t6: seq<Call>, id: string, uow: UnitOfWork.Uow, commit: Option<StorageError>): (r: CreateOutcome)
    requires GuardedByAuthorization(t6)
    requires |t6| == 7 && t6[1].port.Authorize? && t6[1].ok
    requires t6[6] == Call(FlushChanges, true) && t6[5].port.AddUser?
    requires Count(t6, CommitUow) == 0
    ensures r.trace == t6 + [Call(CommitUow, commit.None?)]
    ensures GuardedByAuthorization(r.trace) && CommitsAfterFlush(r.trace)
    ensures Count(r.trace, CommitUow) == 1
    ensures r.uow == UnitOfWork.Commit(uow, commit).uow
    ensures commit.None? ==> r.result == Ok(id)
    ensures commit.Some? ==> r.result == Err(DataMapper(CommitFailed))
  {
    var step := UnitOfWork.Commit(uow, commit);
    var t7 := t6 + [Call(CommitUow, step.result.Ok?)];
    CommittedTrace(t6, t7, step.result.Ok?);
    if step.result.Err? then CreateOutcome(Err(step.result.error), t7, step.uow)
    else CreateOutcome(Ok(id), t7, step.uow)
  }

  /** A trace that starts by resolving the current user, stops at its first
      failure and never writes keeps the protocol, and neither flushes nor
      commits. */
  lemma ReadOnlyTrace(t: seq<Call>)
    requires |t| > 0 && t[0].port == GetCurrentUser
    requires forall i :: 0 <= i < |t| - 1 ==> t[i].ok
    requires forall i :: 0 <= i < |t| ==> !IsWrite(t[i].port)
    ensures GuardedByAuthorization(t) && CommitsAfterFlush(t)
    ensures Count(t, CommitUow) == 0 && Count(t, FlushChanges) == 0
  {
  }

  lemma AddedTrace(t4: seq<Call>, t5: seq<Call>, id: string, ok: bool)
    requires |t4| == 5 && t4[0].port == GetCurrentUser && t4[1].port.Authorize? && t4[1].ok
    requires forall i :: 0 <= i < 5 ==> t4[i].ok && !IsWrite(t4[i].port)
    requires t5 == t4 + [Call(AddUser(id), ok)]
    ensures GuardedByAuthorization(t5) && CommitsAfterFlush(t5)
    ensures Count(t5, CommitUow) == 0 && Count(t5, FlushChanges) == 0
  {
    forall j | 0 <= j < |t5| && IsWrite(t5[j].port) ensures AuthorizedBefore(t5, j) {
      assert t5[1].port.Authorize? && t5[1].ok;
    }
  }

  lemma FlushedTrace(t5: seq<Call>, t6: seq<Call>, ok: bool)
    requires GuardedByAuthorization(t5) && |t5| == 6 && t5[5].ok
    requires t5[1].port.Authorize? && t5[1].ok
    requires forall i :: 0 <= i < 6 ==> t5[i].port != CommitUow
    requires t6 == t5 + [Call(FlushChanges, ok)]
    ensures GuardedByAuthorization(t6) && CommitsAfterFlush(t6)
    ensures Count(t6, CommitUow) == 0
  {
    forall j | 0 <= j < |t6| && IsWrite(t6[j].port) ensures AuthorizedBefore(t6, j) {
      assert t6[1].port.Authorize? && t6[1].ok;
    }
  }

  lemma CommittedTrace(t6: seq<Call>, t7: seq<Call>, ok: bool)
    requires GuardedByAuthorization(t6)
    requires |t6| == 7 && t6[1].port.Authorize? && t6[1].ok
    requires t6[6] == Call(FlushChanges, true) && t6[5].port.AddUser?
    requires Count(t6, CommitUow) == 0
    requires t7 == t6 + [Call(CommitUow, ok)]
    ensures GuardedByAuthorization(t7) && CommitsAfterFlush(t7)
    ensures Count(t7, CommitUow) == 1
  {
    CountAppend(t6, Call(CommitUow, ok), CommitUow);
    forall j | 0 <= j < |t7| && IsWrite(t7[j].port) ensures AuthorizedBefore(t7, j) {
      assert t7[1].port.Authorize? && t7[1].ok;
    }
    forall k | 0 <= k < |t7| && t7[k].port == CommitUow
      ensures exists j :: 0 <= j < k && t7[j] == Call(FlushChanges, true) &&
                          (exists i :: 0 <= i < j && t7[i].port.AddUser?)
    {
      assert k == 7;
      assert t7[6] == Call(FlushChanges, true) && t7[5].port.AddUser?;
    }
  }

  /** Every collaborator's error propagates unchanged, the first one to fail
      deciding the outcome; a failed commit is reported by the unit of work. */
  lemma CreateReportsFirstFailure(req: CreateUserCommand, ports: CreatePorts, uow: UnitOfWork.Uow)
    ensures var r := Handle(req, ports, uow);
      && (ports.currentUser.Err? ==> r.result == Err(ports.currentUser.error) && |r.trace| == 1)
      && (Admitted(req, ports) && ports.username(req.username).Err? ==>
            r.result == Err(ports.username(req.username).error))
      && (Admitted(req, ports) && ports.username(req.username).Ok? && ports.password(req.password).Err? ==>
            r.result == Err(ports.password(req.password).error))
      && (ValueObjectsBuilt(req, ports) && Built(req, ports).Err? ==> r.result == Err(Built(req, ports).error))
      && (ValueObjectsBuilt(req, ports) && Built(req, ports).Ok? && ports.add.Some? ==>
            r.result == Err(ports.add.value))
      && (ValueObjectsBuilt(req, ports) && Built(req, ports).Ok? && ports.add.None? && ports.flush.Some? ==>
            r.result == Err(ports.flush.value))
      && (ValueObjectsBuilt(req, ports) && Built(req, ports).Ok? && ports.add.None? && ports.flush.None? ==>
            Count(r.trace, CommitUow) == 1 && r.uow == UnitOfWork.Commit(uow, ports.commit).uow)
  {
    var p := Prepare(req, ports);
    if ValueObjectsBuilt(req, ports) && Built(req, ports).Ok? && ports.add.None? && ports.flush.None? {
      assert p.user.Ok?;
    }
  }

  /** The handler returns an id exactly when every collaborator succeeds. */
  lemma CreateSucceedsIff(req: CreateUserCommand, ports: CreatePorts, uow: UnitOfWork.Uow)
    ensures Handle(req, ports, uow).result.Ok? <==>
      && ports.currentUser.Ok?
      && ports.authorize(ports.currentUser.value, req.role).None?
      && ports.username(req.username).Ok?
      && ports.password(req.password).Ok?
      && ports.createUser(ports.username(req.username).value, ports.password(req.password).value, req.role).Ok?
      && ports.add.None?
      && ports.flush.None?
      && ports.commit.None?
    ensures Handle(req, ports, uow).result.Ok? ==>
      Handle(req, ports, uow).result.value ==
        ports.createUser(ports.username(req.username).value, ports.password(req.password).value, req.role).value.id
  {
  }

  /** Run inside a unit-of-work scope, the handler's own commit ends the
      begun transaction and the commit on scope exit falls back to the
      session: the transaction is committed once. */
  lemma CreateInsideScope(req: CreateUserCommand, ports: CreatePorts, u0: UnitOfWork.Uow)
    requires Handle(req, ports, UnitOfWork.Enter(u0, None).uow).result.Ok?
    ensures
      var u1 := UnitOfWork.Enter(u0, None).uow;
      var exit := UnitOfWork.Exit(Handle(req, ports, u1).uow, None, None);
      && exit.1.None?
      && exit.0.session.log == u1.session.log + [
           UnitOfWork.Attempt(UnitOfWork.CommitTx(UnitOfWork.Tx(|u0.session.log|)), true),
           UnitOfWork.Attempt(UnitOfWork.CommitSession, true)]
  {
    var u1 := UnitOfWork.Enter(u0, None).uow;
    CreateSucceedsIff(req, ports, u1);
  }
}
