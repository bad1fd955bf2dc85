/** The SQLAlchemy unit of work: the transaction it stores on entry, the
    commit and rollback that act on that transaction or fall back to the
    session, the translation of flush failures, scope exit, and the
    repositories it hands out.

    The session is a value: its identity, the rows it sees, the rows that
    are persistent in it (loaded or flushed, so holding an identity), the
    rows last made durable, and the log of storage calls attempted through
    it. Every
    storage call takes an oracle argument, `None` when the engine succeeds
    and `Some(error)` when it fails. */
module UnitOfWork {
  import opened Wrappers
  import opened Errors
  import opened QueryParams
  import Repository
  import ValueOrder

  /** A begun transaction, named by the position of its `Begin` call in the
      session log. */
  datatype Tx = Tx(id: nat)

  datatype Op =
    | Begin
    | CommitTx(tx: Tx)
    | CommitSession
    | RollbackTx(tx: Tx)
    | RollbackSession
    | FlushSession

  /** One storage call and whether the engine accepted it. */
  datatype Attempt = Attempt(op: Op, ok: bool)

  datatype Session = Session(
    id: nat,
    rows: Repository.Store,
    persisted: Repository.Store,
    durable: Repository.Store,
    log: seq<Attempt>)

  datatype Uow = Uow(tx: Option<Tx>, session: Session)

  /** The state after an operation and what the operation returned or raised. */
  datatype Step = Step(uow: Uow, result: Result<(), AppError>)

  /** A unit of work on a session that has made no call yet. */
  function Fresh(id: nat, rows: Repository.Store): (u: Uow)
    ensures u.tx.None? && u.session.log == [] && u.session.id == id
    ensures u.session.rows == rows && u.session.persisted == rows && u.session.durable == rows
  {
    Uow(None, Session(id, rows, rows, rows, []))
  }

  function Record(s: Session, op: Op, ok: bool): (r: Session)
    ensures r.log == s.log + [Attempt(op, ok)]
    ensures r.id == s.id && r.rows == s.rows && r.persisted == s.persisted && r.durable == s.durable
  {
    s.(log := s.log + [Attempt(op, ok)])
  }

  // -------------------------------------------------------------- entry

  /** `__aenter__`: begin a transaction and keep it. A failing `begin` is not
      translated. */
  function Enter(u: Uow, failure: Option<StorageError>): (r: Step)
    ensures r.uow.session.log == u.session.log + [Attempt(Begin, failure.None?)]
    ensures failure.None? ==> r.result.Ok? && r.uow.tx == Some(Tx(|u.session.log|))
    ensures failure.Some? ==> r.result == Err(Untranslated(failure.value)) && r.uow.tx == u.tx
    ensures r.uow.session.id == u.session.id && r.uow.session.rows == u.session.rows
    ensures r.uow.session.persisted == u.session.persisted && r.uow.session.durable == u.session.durable
  {
    var s := Record(u.session, Begin, failure.None?);
    match failure
    case None => Step(Uow(Some(Tx(|u.session.log|)), s), Ok(()))
    case Some(e) => Step(Uow(u.tx, s), Err(Untranslated(e)))
  }

  // ------------------------------------------------------------- commit

  /** `commit`: commit the stored transaction and forget it, or commit the
      session when none is stored. Committing flushes first, so every row
      seen becomes persistent and durable. A failure leaves the stored
      transaction in place and nothing new persistent or durable. */
  function Commit(u: Uow, failure: Option<StorageError>): (r: Step)
    ensures u.tx.Some? ==> r.uow.session.log == u.session.log + [Attempt(CommitTx(u.tx.value), failure.None?)]
    ensures u.tx.None? ==> r.uow.session.log == u.session.log + [Attempt(CommitSession, failure.None?)]
    ensures failure.None? ==> r.result.Ok? && r.uow.tx.None? && r.uow.session.durable == u.session.rows
    ensures failure.Some? ==> r.result == Err(DataMapper(CommitFailed)) && r.uow.tx == u.tx
    ensures failure.None? ==> r.uow.session.persisted == u.session.rows
    ensures failure.Some? ==> r.uow.session.durable == u.session.durable
    ensures failure.Some? ==> r.uow.session.persisted == u.session.persisted
    ensures r.uow.session.rows == u.session.rows && r.uow.session.id == u.session.id
  {
    var op := if u.tx.Some? then CommitTx(u.tx.value) else CommitSession;
    var s := Record(u.session, op, failure.None?);
    if failure.None? then Step(Uow(None, s.(persisted := s.rows, durable := s.rows)), Ok(()))
    else Step(Uow(u.tx, s), Err(DataMapper(CommitFailed)))
  }

  // ----------------------------------------------------------- rollback

  /** `rollback`: roll back the stored transaction and forget it, or roll
      back the session when none is stored; staged rows are discarded and
      only what was durable stays persistent. */
  function Rollback(u: Uow, failure: Option<StorageError>): (r: Step)
    ensures u.tx.Some? ==> r.uow.session.log == u.session.log + [Attempt(RollbackTx(u.tx.value), failure.None?)]
    ensures u.tx.None? ==> r.uow.session.log == u.session.log + [Attempt(RollbackSession, failure.None?)]
    ensures failure.None? ==> r.result.Ok? && r.uow.tx.None? && r.uow.session.rows == u.session.durable
    ensures failure.Some? ==> r.result == Err(DataMapper(RollbackFailed)) && r.uow.tx == u.tx
    ensures failure.None? ==> r.uow.session.persisted == u.session.durable
    ensures failure.Some? ==> r.uow.session.rows == u.session.rows
    ensures failure.Some? ==> r.uow.session.persisted == u.session.persisted
    ensures r.uow.session.durable == u.session.durable && r.uow.session.id == u.session.id
  {
    var op := if u.tx.Some? then RollbackTx(u.tx.value) else RollbackSession;
    var s := Record(u.session, op, failure.None?);
    if failure.None? then Step(Uow(None, s.(rows := s.durable, persisted := s.durable)), Ok(()))
    else Step(Uow(u.tx, s), Err(DataMapper(RollbackFailed)))
  }

  // -------------------------------------------------------------- flush

  /** The name of the unique constraint on usernames. */
  const UsernameConstraint: string := "uq_users_username"

  /** The username reported for a violation whose parameters lack one. */
  const UnknownUsername: string := "unknown"

  /** How `flush` reports a storage failure. */
  function TranslateFlushError(e: StorageError): (r: AppError)
    ensures r.UsernameAlreadyExists? <==> e.isIntegrity && Contains(e.message, UsernameConstraint)
    ensures r.UsernameAlreadyExists? ==>
      r.username == if "username" in e.params then e.params["username"] else UnknownUsername
    ensures r == DataMapper(ConstraintViolation) <==>
      e.isIntegrity && !Contains(e.message, UsernameConstraint)
    ensures r == DataMapper(FlushFailed) <==> !e.isIntegrity
  {
    if e.isIntegrity then
      if Contains(e.message, UsernameConstraint) then
        UsernameAlreadyExists(if "username" in e.params then e.params["username"] else UnknownUsername)
      else DataMapper(ConstraintViolation)
    else DataMapper(FlushFailed)
  }

  /** `flush`: send staged rows to the engine without ending the
      transaction, which makes every row seen persistent but nothing new
      durable; failures are translated and leave the staged rows pending. */
  function Flush(u: Uow, failure: Option<StorageError>): (r: Step)
    ensures r.uow.tx == u.tx
    ensures r.uow.session.log == u.session.log + [Attempt(FlushSession, failure.None?)]
    ensures r.uow.session.id == u.session.id && r.uow.session.rows == u.session.rows
    ensures r.uow.session.durable == u.session.durable
    ensures failure.None? <==> r.result.Ok?
    ensures failure.None? ==> r.uow.session.persisted == u.session.rows
    ensures failure.Some? ==> r.uow.session.persisted == u.session.persisted
    ensures failure.Some? ==> r.result == Err(TranslateFlushError(failure.value))
  {
    var s := Record(u.session, FlushSession, failure.None?);
    match failure
    case None => Step(Uow(u.tx, s.(persisted := s.rows)), Ok(()))
    case Some(e) => Step(Uow(u.tx, s), Err(TranslateFlushError(e)))
  }

  /** A violation of the username constraint reports the offending username. */
  lemma DuplicateUsernameReported(message: string, username: string, params: map<string, string>)
    requires Contains(message, UsernameConstraint)
    requires "username" in params && params["username"] == username
    ensures TranslateFlushError(StorageError(true, message, params)) == UsernameAlreadyExists(username)
  {
  }

  /** The constraint name inside an integrity error's text is what makes it a
      username conflict, wherever it appears. */
  lemma ConstraintNameAnywhere(prefix: string, suffix: string, params: map<string, string>)
    ensures TranslateFlushError(StorageError(true, prefix + UsernameConstraint + suffix, params)).UsernameAlreadyExists?
  {
    var s := prefix + UsernameConstraint + suffix;
    assert s[|prefix|..|prefix| + |UsernameConstraint|] == UsernameConstraint;
    assert OccursAt(s, UsernameConstraint, |prefix|);
  }

  // ---------------------------------------------------------- scope exit

  /** `__aexit__`: roll back when the scope raised, commit otherwise. The
      result is the exception leaving the `async with`: the scope's own one
      is propagated (never suppressed) unless the rollback itself fails. */
  function Exit(u: Uow, raised: Option<AppError>, failure: Option<StorageError>): (r: (Uow, Option<AppError>))
    ensures raised.Some? ==> r.0 == Rollback(u, failure).uow
    ensures raised.None? ==> r.0 == Commit(u, failure).uow
    ensures raised.Some? && failure.None? ==> r.1 == raised
    ensures raised.Some? && failure.Some? ==> r.1 == Some(DataMapper(RollbackFailed))
    ensures raised.None? ==> (r.1.None? <==> failure.None?)
    ensures raised.None? && failure.Some? ==> r.1 == Some(DataMapper(CommitFailed))
  {
    if raised.Some? then
      var step := Rollback(u, failure);
      (step.uow, if step.result.Err? then Some(step.result.error) else raised)
    else
      var step := Commit(u, failure);
      (step.uow, if step.result.Err? then Some(step.result.error) else None)
  }

  predicate IsCommit(op: Op)
  {
    op.CommitTx? || op.CommitSession?
  }

  predicate IsRollback(op: Op)
  {
    op.RollbackTx? || op.RollbackSession?
  }

  /** Scope exit makes exactly one storage call, a rollback exactly when the
      scope raised and a commit exactly when it did not. */
  lemma ExitCallsExactlyOne(u: Uow, raised: Option<AppError>, failure: Option<StorageError>)
    ensures var log := Exit(u, raised, failure).0.session.log;
      && |log| == |u.session.log| + 1
      && log[..|u.session.log|] == u.session.log
      && (IsRollback(log[|u.session.log|].op) <==> raised.Some?)
      && (IsCommit(log[|u.session.log|].op) <==> raised.None?)
  {
  }

  // -------------------------------------------------------- repositories

  /** A repository of one entity type holding a reference to a session. */
  datatype BoundRepository = BoundRepository(mapper: Repository.Mapper, session: nat)

  /** `repository(model)`: a repository on this unit of work's own session. */
  function RepositoryFor(u: Uow, m: Repository.Mapper): (r: BoundRepository)
    ensures r.session == u.session.id && r.mapper == m
  {
    BoundRepository(m, u.session.id)
  }

  /** The state after a query through a repository and what it answered or
      raised. */
  datatype Answer<T> = Answer(uow: Uow, result: Result<T, AppError>)

  /** `create` through a repository stages on the session it is bound to.
      The row is pending: nothing new is persistent or durable. An instance
      the session already holds is not staged again. */
  function Stage(u: Uow, repo: BoundRepository, e: Repository.Entity): (r: Uow)
    requires repo.session == u.session.id
    ensures r.tx == u.tx && r.session.id == u.session.id && r.session.log == u.session.log
    ensures multiset(r.session.rows) ==
      multiset(u.session.rows) + (if e in u.session.rows then multiset{} else multiset{e})
    ensures e in r.session.rows
    ensures r.session.persisted == u.session.persisted && r.session.durable == u.session.durable
  {
    u.(session := u.session.(rows := Repository.Create(u.session.rows, e)))
  }

  /** Before a query the session flushes whatever is pending (SQLAlchemy's
      autoflush). Every row seen becomes persistent; a failure is raised
      untranslated, since the repository calls the session directly. */
  function Autoflush(u: Uow, failure: Option<StorageError>): (r: Step)
    ensures r.uow == Flush(u, failure).uow
    ensures r.uow.session.rows == u.session.rows
    ensures failure.None? <==> r.result.Ok?
    ensures failure.None? ==> r.uow.session.persisted == u.session.rows
    ensures failure.Some? ==> r.result == Err(Untranslated(failure.value))
  {
    var step := Flush(u, failure);
    Step(step.uow, if failure.Some? then Err(Untranslated(failure.value)) else Ok(()))
  }

  /** `get` is answered from the identity map, without SQL and so without
      autoflush, when the session holds a persistent row of the class with
      that key. */
  predicate InIdentityMap(u: Uow, m: Repository.Mapper, pk: ValueOrder.Val)
  {
    var hit := Repository.Get(m, u.session.rows, pk);
    hit.Some? && hit.value in u.session.persisted
  }

  /** `get` through a repository reads the session it is bound to. On an
      identity-map miss it autoflushes first, so a row it finds is always
      persistent. */
  function Lookup(u: Uow, repo: BoundRepository, pk: ValueOrder.Val,
                  failure: Option<StorageError>): (r: Answer<Option<Repository.Entity>>)
    requires repo.session == u.session.id
    ensures r.uow.tx == u.tx && r.uow.session.id == u.session.id
    ensures r.uow.session.rows == u.session.rows && r.uow.session.durable == u.session.durable
    ensures InIdentityMap(u, repo.mapper, pk) ==> r.uow == u
    ensures !InIdentityMap(u, repo.mapper, pk) ==> r.uow == Flush(u, failure).uow
    ensures r.result.Err? <==> !InIdentityMap(u, repo.mapper, pk) && failure.Some?
    ensures r.result.Err? ==> failure.Some? && r.result.error == Untranslated(failure.value)
    ensures r.result.Ok? && r.result.value.Some? ==>
      && r.result.value.value in u.session.rows
      && r.result.value.value in r.uow.session.persisted
      && Repository.HasKey(repo.mapper, r.result.value.value, pk)
    ensures r.result.Ok? ==>
      (r.result.value.None? <==> forall e :: e in u.session.rows ==> !Repository.HasKey(repo.mapper, e, pk))
  {
    if InIdentityMap(u, repo.mapper, pk) then
      Answer(u, Ok(Repository.Get(repo.mapper, u.session.rows, pk)))
    else
      var step := Autoflush(u, failure);
      if step.result.Err? then Answer(step.uow, Err(step.result.error))
      else Answer(step.uow, Ok(Repository.Get(repo.mapper, step.uow.session.rows, pk)))
  }

  /** `session.execute` of a query: autoflush, then read the rows the
      session sees, all of which are then persistent. */
  function Execute(u: Uow, failure: Option<StorageError>): (r: Answer<Repository.Store>)
    ensures r.uow == Autoflush(u, failure).uow
    ensures r.result.Ok? <==> failure.None?
    ensures r.result.Ok? ==> r.result.value == u.session.rows && r.uow.session.persisted == u.session.rows
    ensures r.result.Err? ==> r.result.error == Untranslated(failure.value)
  {
    var step := Autoflush(u, failure);
    if step.result.Err? then Answer(step.uow, Err(step.result.error))
    else Answer(step.uow, Ok(step.uow.session.rows))
  }

  /** `one` through a repository. The statement is built first, so an
      unknown criterion is refused before the session is touched;
      otherwise the query's own answer over the flushed rows, or the
      autoflush's failure. */
  function FindOne(u: Uow, repo: BoundRepository, c: Repository.Criteria,
                   failure: Option<StorageError>): (r: Answer<Result<Option<Repository.Entity>, Repository.RepoError>>)
    requires repo.session == u.session.id
    ensures Repository.Statement(repo.mapper, c).Err? ==>
      r.uow == u && r.result == Ok(Err(Repository.UnknownCriterion))
    ensures Repository.Statement(repo.mapper, c).Ok? ==>
      && r.uow == Autoflush(u, failure).uow
      && (r.result.Ok? <==> failure.None?)
    ensures r.result.Err? ==> failure.Some? && r.result.error == Untranslated(failure.value)
    ensures r.result.Ok? ==> r.result.value == Repository.One(repo.mapper, u.session.rows, c)
    ensures r.result.Ok? && r.result.value.Ok? && r.result.value.value.Some? ==>
      r.result.value.value.value in r.uow.session.persisted
  {
    match Repository.Statement(repo.mapper, c)
    case Err(e) => Answer(u, Ok(Err(e)))
    case Ok(_) =>
      var rows := Execute(u, failure);
      match rows.result
      case Err(e) => Answer(rows.uow, Err(e))
      case Ok(store) => Answer(rows.uow, Ok(Repository.One(repo.mapper, store, c)))
  }

  /** `all` refuses before reaching the session: an unknown criterion when
      the statement is built, an unbound sort column when ordering. */
  predicate AllRefused(m: Repository.Mapper, sorting: Option<Sorting>, c: Repository.Criteria)
  {
    Repository.Statement(m, c).Err? || (sorting.Some? && |m.columns| == 0)
  }

  /** `all` through a repository, as written: ordered by the last column
      attribute whatever `sorting_field` says. Unless refused while the
      statement is built, the as-written listing over the flushed rows, or
      the autoflush's failure. */
  function FindAll(u: Uow, repo: BoundRepository, pagination: Option<Pagination>,
                   sorting: Option<Sorting>, c: Repository.Criteria,
                   failure: Option<StorageError>): (r: Answer<Result<seq<Repository.Entity>, Repository.RepoError>>)
    requires repo.session == u.session.id
    ensures AllRefused(repo.mapper, sorting, c) ==> r.uow == u && r.result.Ok? && r.result.value.Err?
    ensures !AllRefused(repo.mapper, sorting, c) ==>
      && r.uow == Autoflush(u, failure).uow
      && (r.result.Ok? <==> failure.None?)
    ensures r.result.Err? ==> failure.Some? && r.result.error == Untranslated(failure.value)
    ensures r.result.Ok? ==>
      r.result.value == Repository.All(repo.mapper, u.session.rows, pagination, sorting, c)
    ensures r.result.Ok? && r.result.value.Ok? ==>
      forall i :: 0 <= i < |r.result.value.value| ==> r.result.value.value[i] in r.uow.session.persisted
  {
    if AllRefused(repo.mapper, sorting, c) then
      Answer(u, Ok(Repository.All(repo.mapper, u.session.rows, pagination, sorting, c)))
    else
      var rows := Execute(u, failure);
      match rows.result
      case Err(e) => Answer(rows.uow, Err(e))
      case Ok(store) => Answer(rows.uow, Ok(Repository.All(repo.mapper, store, pagination, sorting, c)))
  }

  /** `exists` through a repository: an unknown criterion is refused before
      the session is touched; otherwise the query's answer over the flushed
      rows, or the autoflush's failure. */
  function FindExists(u: Uow, repo: BoundRepository, c: Repository.Criteria,
                      failure: Option<StorageError>): (r: Answer<Result<bool, Repository.RepoError>>)
    requires repo.session == u.session.id
    ensures Repository.Statement(repo.mapper, c).Err? ==>
      r.uow == u && r.result == Ok(Err(Repository.UnknownCriterion))
    ensures Repository.Statement(repo.mapper, c).Ok? ==>
      && r.uow == Autoflush(u, failure).uow
      && (r.result.Ok? <==> failure.None?)
    ensures r.result.Err? ==> failure.Some? && r.result.error == Untranslated(failure.value)
    ensures r.result.Ok? ==> r.result.value == Repository.Exists(repo.mapper, u.session.rows, c)
  {
    match Repository.Statement(repo.mapper, c)
    case Err(e) => Answer(u, Ok(Err(e)))
    case Ok(_) =>
      var rows := Execute(u, failure);
      match rows.result
      case Err(e) => Answer(rows.uow, Err(e))
      case Ok(store) => Answer(rows.uow, Ok(Repository.Exists(repo.mapper, store, c)))
  }

  /** `delete` through a repository: the session stops seeing the instance,
      or refuses an instance that is not persistent in it. */
  function Remove(u: Uow, repo: BoundRepository, e: Repository.Entity): (r: Result<Uow, Repository.RepoError>)
    requires repo.session == u.session.id
    ensures r.Err? <==> e !in u.session.persisted
    ensures r.Err? ==> r.error == Repository.NotPersisted
    ensures r.Ok? ==> multiset(r.value.session.rows) == multiset(u.session.rows) - multiset{e}
    ensures r.Ok? ==> r.value == u.(session := u.session.(rows := r.value.session.rows))
  {
    var rows :- Repository.Delete(u.session.rows, u.session.persisted, e);
    Ok(u.(session := u.session.(rows := rows)))
  }

  /** `update` through a repository sets attributes on the held instance
      itself, so it changes wherever the session sees it, pending or
      persistent; the durable copy changes only when a flush and commit
      send it. */
  function Modify(u: Uow, repo: BoundRepository, e: Repository.Entity, data: map<Repository.Field, ValueOrder.Val>): (r: Uow)
    requires repo.session == u.session.id
    ensures r == u.(session := u.session.(rows := r.session.rows, persisted := r.session.persisted))
    ensures |r.session.rows| == |u.session.rows|
    ensures forall i :: 0 <= i < |u.session.rows| ==>
      r.session.rows[i] == if u.session.rows[i] == e then Repository.Update(e, data) else u.session.rows[i]
    ensures |r.session.persisted| == |u.session.persisted|
    ensures forall i :: 0 <= i < |u.session.persisted| ==>
      r.session.persisted[i] == if u.session.persisted[i] == e then Repository.Update(e, data) else u.session.persisted[i]
  {
    u.(session := u.session.(rows := Repository.UpdateInStore(u.session.rows, e, data),
                             persisted := Repository.UpdateInStore(u.session.persisted, e, data)))
  }

  /** An updated persistent instance is still persistent: deleting it
      afterwards succeeds. */
  lemma UpdatedStaysDeletable(u: Uow, m: Repository.Mapper, e: Repository.Entity,
                              data: map<Repository.Field, ValueOrder.Val>)
    requires e in u.session.persisted
    ensures var repo := RepositoryFor(u, m);
      Remove(Modify(u, repo, e, data), repo, Repository.Update(e, data)).Ok?
  {
    var v := Modify(u, RepositoryFor(u, m), e, data);
    var i :| 0 <= i < |u.session.persisted| && u.session.persisted[i] == e;
    assert v.session.persisted[i] == Repository.Update(e, data);
  }

  /** Two repositories of one class handed out by one unit of work see each
      other's staged rows: `get` autoflushes the staged row and finds it. */
  lemma RepositoriesSharePendingState(u: Uow, m1: Repository.Mapper, m2: Repository.Mapper, e: Repository.Entity)
    requires m1.model == e.model && m2.model == e.model
    requires forall x :: x in u.session.rows ==> !Repository.HasKey(m2, x, Repository.Read(e, m2.pk))
    ensures Lookup(Stage(u, RepositoryFor(u, m1), e), RepositoryFor(u, m2), Repository.Read(e, m2.pk), None).result == Ok(Some(e))
  {
    Repository.CreateThenGet(m2, u.session.rows, e);
  }

  /** A row staged through any repository is invisible to the repositories
      of other classes. */
  lemma OtherClassesUnaffected(u: Uow, m1: Repository.Mapper, m2: Repository.Mapper,
                               e: Repository.Entity, pk: ValueOrder.Val, failure: Option<StorageError>)
    requires m2.model != e.model
    ensures Lookup(Stage(u, RepositoryFor(u, m1), e), RepositoryFor(u, m2), pk, failure).result ==
      Lookup(u, RepositoryFor(u, m2), pk, failure).result
  {
    Repository.CreateOtherModel(m2, u.session.rows, e, pk);
  }

  /** A staged instance cannot be deleted before it is flushed; once flushed
      it can, and deleting it gives back the rows seen before staging. */
  lemma DeleteNeedsFlush(u: Uow, m: Repository.Mapper, e: Repository.Entity)
    requires e !in u.session.persisted
    ensures var v := Stage(u, RepositoryFor(u, m), e);
      Remove(v, RepositoryFor(u, m), e) == Err(Repository.NotPersisted)
    ensures var w := Flush(Stage(u, RepositoryFor(u, m), e), None).uow;
      && Remove(w, RepositoryFor(u, m), e).Ok?
      && multiset(Remove(w, RepositoryFor(u, m), e).value.session.rows) == multiset(u.session.rows) - multiset{e}
    ensures e !in u.session.rows ==>
      var w := Flush(Stage(u, RepositoryFor(u, m), e), None).uow;
      multiset(Remove(w, RepositoryFor(u, m), e).value.session.rows) == multiset(u.session.rows)
  {
    var w := Flush(Stage(u, RepositoryFor(u, m), e), None).uow;
    assert e in multiset(w.session.rows);
  }

  /** Staging a new instance and then looking it up by its key makes it
      persistent, so it can be deleted at once. */
  lemma StageGetDelete(u: Uow, m: Repository.Mapper, e: Repository.Entity)
    requires e.model == m.model
    requires forall x :: x in u.session.rows ==> !Repository.HasKey(m, x, Repository.Read(e, m.pk))
    ensures var v := Stage(u, RepositoryFor(u, m), e);
      var got := Lookup(v, RepositoryFor(u, m), Repository.Read(e, m.pk), None);
      && got.result == Ok(Some(e))
      && Remove(got.uow, RepositoryFor(u, m), e).Ok?
  {
    Repository.CreateThenGet(m, u.session.rows, e);
  }

  // ----------------------------------------------------- lifecycle facts

  /** After entry, commit acts on the begun transaction, not on the session. */
  lemma CommitUsesEnteredTransaction(u: Uow, f: Option<StorageError>)
    ensures var v := Enter(u, None).uow;
      Commit(v, f).uow.session.log == v.session.log + [Attempt(CommitTx(Tx(|u.session.log|)), f.None?)]
  {
  }

  /** After entry, rollback acts on the begun transaction, not on the session. */
  lemma RollbackUsesEnteredTransaction(u: Uow, f: Option<StorageError>)
    ensures var v := Enter(u, None).uow;
      Rollback(v, f).uow.session.log == v.session.log + [Attempt(RollbackTx(Tx(|u.session.log|)), f.None?)]
  {
  }

  /** A second commit goes to the session, never to the finished transaction. */
  lemma SecondCommitUsesSession(u: Uow, f: Option<StorageError>)
    requires u.tx.Some?
    ensures var v := Commit(u, None).uow;
      Commit(v, f).uow.session.log[|v.session.log|].op == CommitSession
  {
  }

  /** A failed commit can be retried on the same transaction. */
  lemma FailedCommitKeepsTransaction(u: Uow, e: StorageError, f: Option<StorageError>)
    requires u.tx.Some?
    ensures var v := Commit(u, Some(e)).uow;
      Commit(v, f).uow.session.log[|v.session.log|].op == CommitTx(u.tx.value)
  {
  }

  // ------------------------------------------- no transaction ends twice

  /** Anything a caller can do to a unit of work. */
  datatype Action =
    | EnterScope(failure: Option<StorageError>)
    | CommitCall(failure: Option<StorageError>)
    | RollbackCall(failure: Option<StorageError>)
    | FlushCall(failure: Option<StorageError>)
    | StageRow(mapper: Repository.Mapper, e: Repository.Entity)
    | DeleteRow(mapper: Repository.Mapper, e: Repository.Entity)
    | UpdateRow(mapper: Repository.Mapper, e: Repository.Entity, data: map<Repository.Field, ValueOrder.Val>)
    | LookupRow(mapper: Repository.Mapper, pk: ValueOrder.Val, failure: Option<StorageError>)
    | QueryRows(failure: Option<StorageError>)
    | ExitScope(raised: Option<AppError>, failure: Option<StorageError>)

  function Apply(u: Uow, a: Action): Uow
  {
    match a
    case EnterScope(f) => Enter(u, f).uow
    case CommitCall(f) => Commit(u, f).uow
    case RollbackCall(f) => Rollback(u, f).uow
    case FlushCall(f) => Flush(u, f).uow
    case StageRow(m, e) => Stage(u, RepositoryFor(u, m), e)
    case DeleteRow(m, e) =>
      var r := Remove(u, RepositoryFor(u, m), e);
      if r.Ok? then r.value else u
    case UpdateRow(m, e, data) => Modify(u, RepositoryFor(u, m), e, data)
    case LookupRow(m, pk, f) => Lookup(u, RepositoryFor(u, m), pk, f).uow
    case QueryRows(f) => Execute(u, f).uow
    case ExitScope(raised, f) => Exit(u, raised, f).0
  }

  function Run(u: Uow, actions: seq<Action>): Uow
    decreases |actions|
  {
    if |actions| == 0 then u else Run(Apply(u, actions[0]), actions[1..])
  }

  /** The attempt successfully committed or rolled back a transaction. */
  predicate Ends(a: Attempt)
  {
    a.ok && (a.op.CommitTx? || a.op.RollbackTx?)
  }

  /** No transaction is committed or rolled back successfully twice. */
  ghost predicate EndedAtMostOnce(log: seq<Attempt>)
  {
    forall i, j :: 0 <= i < j < |log| && Ends(log[i]) && Ends(log[j]) ==> log[i].op.tx != log[j].op.tx
  }

  /** The invariant behind `EndedAtMostOnce`: an ended transaction was begun
      earlier in the log, and the stored transaction has not ended. */
  ghost predicate Consistent(u: Uow)
  {
    var log := u.session.log;
    && EndedAtMostOnce(log)
    && (forall i :: 0 <= i < |log| && Ends(log[i]) ==> log[i].op.tx.id < i)
    && (u.tx.Some? ==>
          && u.tx.value.id < |log|
          && forall i :: 0 <= i < |log| && Ends(log[i]) ==> log[i].op.tx != u.tx.value)
  }

  /** Staging, deleting and updating rows make no storage call. */
  lemma SameLogKeepsConsistent(u: Uow, v: Uow)
    requires Consistent(u)
    requires v.tx == u.tx && v.session.log == u.session.log
    ensures Consistent(v)
  {
  }

  lemma FlushKeepsConsistent(u: Uow, f: Option<StorageError>)
    requires Consistent(u)
    ensures Consistent(Flush(u, f).uow)
  {
    assert Flush(u, f).uow.session.log[..|u.session.log|] == u.session.log;
  }

  lemma EnterKeepsConsistent(u: Uow, f: Option<StorageError>)
    requires Consistent(u)
    ensures Consistent(Enter(u, f).uow)
  {
    assert Enter(u, f).uow.session.log[..|u.session.log|] == u.session.log;
  }

  lemma CommitKeepsConsistent(u: Uow, f: Option<StorageError>)
    requires Consistent(u)
    ensures Consistent(Commit(u, f).uow)
  {
    assert Commit(u, f).uow.session.log[..|u.session.log|] == u.session.log;
  }

  lemma RollbackKeepsConsistent(u: Uow, f: Option<StorageError>)
    requires Consistent(u)
    ensures Consistent(Rollback(u, f).uow)
  {
    assert Rollback(u, f).uow.session.log[..|u.session.log|] == u.session.log;
  }

  lemma ApplyKeepsConsistent(u: Uow, a: Action)
    requires Consistent(u)
    ensures Consistent(Apply(u, a))
  {
    match a
    case EnterScope(f) => EnterKeepsConsistent(u, f);
    case CommitCall(f) => CommitKeepsConsistent(u, f);
    case RollbackCall(f) => RollbackKeepsConsistent(u, f);
    case FlushCall(f) => FlushKeepsConsistent(u, f);
    case StageRow(_, _) => SameLogKeepsConsistent(u, Apply(u, a));
    case DeleteRow(_, _) => SameLogKeepsConsistent(u, Apply(u, a));
    case UpdateRow(_, _, _) => SameLogKeepsConsistent(u, Apply(u, a));
    case LookupRow(m, pk, f) =>
      if InIdentityMap(u, m, pk) {
        SameLogKeepsConsistent(u, Apply(u, a));
      } else {
        FlushKeepsConsistent(u, f);
      }
    case QueryRows(f) => FlushKeepsConsistent(u, f);
    case ExitScope(raised, f) =>
      if raised.Some? {
        RollbackKeepsConsistent(u, f);
      } else {
        CommitKeepsConsistent(u, f);
      }
  }

  lemma {:induction false} RunKeepsConsistent(u: Uow, actions: seq<Action>)
    requires Consistent(u)
    ensures Consistent(Run(u, actions))
    decreases |actions|
  {
    if |actions| > 0 {
      ApplyKeepsConsistent(u, actions[0]);
      RunKeepsConsistent(Apply(u, actions[0]), actions[1..]);
    }
  }

  /** Whatever a caller does to a fresh unit of work, no transaction is
      committed twice, nor committed and then rolled back. */
  lemma NoTransactionEndsTwice(id: nat, rows: Repository.Store, actions: seq<Action>)
    ensures EndedAtMostOnce(Run(Fresh(id, rows), actions).session.log)
  {
    RunKeepsConsistent(Fresh(id, rows), actions);
  }
}
